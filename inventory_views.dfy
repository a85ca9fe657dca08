/** The Django app's reports view (shortages against the expected quantities and newly
    counted items between the two most recent completed sessions) and its item deletion. */
module InventoryViews {
  import opened Wrappers
  import opened Collections
  import opened InventoryModels

  datatype ShortageRow = ShortageRow(item: Item, currentCount: nat, expected: nat, shortage: int)
  datatype NewItemRow = NewItemRow(item: Item, count: nat)

  /** The template context of the reports page. */
  datatype ReportsContext = ReportsContext(current: Option<InventorySession>, previous: Option<InventorySession>,
                                           shortages: seq<ShortageRow>, newItems: seq<NewItemRow>, totalItems: nat)

  /** `{c.item_id: c.counted_quantity for c in InventoryCount.objects.filter(session=s)}`:
      a later row for the same item overwrites an earlier one. */
  function SessionCounts(counts: seq<InventoryCount>, sessionId: nat): (m: map<nat, nat>)
    ensures forall id :: id in m ==> exists i :: 0 <= i < |counts| && counts[i].sessionId == sessionId && counts[i].itemId == id
    ensures forall i :: 0 <= i < |counts| && counts[i].sessionId == sessionId ==> counts[i].itemId in m
  {
    if counts == [] then map[]
    else
      var c := counts[|counts| - 1];
      var m := SessionCounts(counts[..|counts| - 1], sessionId);
      if c.sessionId == sessionId then m[c.itemId := c.countedQuantity] else m
  }

  /** With one count per item and session, the dictionary holds each item's own count. */
  lemma {:induction false} SessionCountsExact(counts: seq<InventoryCount>, sessionId: nat, i: int)
    requires UniqueItemSession(counts)
    requires 0 <= i < |counts| && counts[i].sessionId == sessionId
    ensures SessionCounts(counts, sessionId)[counts[i].itemId] == counts[i].countedQuantity
    decreases |counts|
  {
    var n := |counts| - 1;
    if i < n {
      var front := counts[..n];
      assert UniqueItemSession(front) by {
        forall a, b | 0 <= a < b < |front|
          ensures front[a].itemId != front[b].itemId || front[a].sessionId != front[b].sessionId
        {
          assert front[a] == counts[a] && front[b] == counts[b];
        }
      }
      assert front[i] == counts[i];
      SessionCountsExact(front, sessionId, i);
    }
  }

  /** `dict.get(id, 0)`. */
  function CountOr0(m: map<nat, nat>, id: nat): nat {
    if id in m then m[id] else 0
  }

  /** The row an item gets when it is short. */
  function ShortageOf(item: Item, current: map<nat, nat>): ShortageRow {
    var c := CountOr0(current, item.id);
    ShortageRow(item, c, item.expectedQuantity, item.expectedQuantity - c)
  }

  /** The shortage rows the loop appends, in item order. */
  function ShortageRows(items: seq<Item>, current: map<nat, nat>): seq<ShortageRow> {
    if items == [] then []
    else
      var item := items[|items| - 1];
      var c := CountOr0(current, item.id);
      ShortageRows(items[..|items| - 1], current)
        + (if c < item.expectedQuantity then [ShortageOf(item, current)] else [])
  }

  /** The test for a new item: with a previous session, counted now but not then, or created
      after that session's date while counted now; without one, counted now. */
  predicate IsNew(item: Item, currentCount: nat, previous: Option<InventorySession>, previousCounts: map<nat, nat>) {
    if previous.Some? then
      (item.id !in previousCounts && currentCount > 0)
      || (item.createdDate > previous.value.date && currentCount > 0)
    else currentCount > 0
  }

  /** The new-item rows the loop appends, in item order. */
  function NewItemRows(items: seq<Item>, current: map<nat, nat>, previous: Option<InventorySession>,
                       previousCounts: map<nat, nat>): seq<NewItemRow> {
    if items == [] then []
    else
      var item := items[|items| - 1];
      var c := CountOr0(current, item.id);
      NewItemRows(items[..|items| - 1], current, previous, previousCounts)
        + (if IsNew(item, c, previous, previousCounts) then [NewItemRow(item, c)] else [])
  }

  /** One pass of the loop over the items; the previous count it also reads is never used. */
  method ClassifyItems(items: seq<Item>, current: map<nat, nat>, previous: Option<InventorySession>,
                       previousCounts: map<nat, nat>) returns (shortages: seq<ShortageRow>, newItems: seq<NewItemRow>)
    ensures shortages == ShortageRows(items, current)
    ensures newItems == NewItemRows(items, current, previous, previousCounts)
  {
    shortages, newItems := [], [];
    var i := 0;
    while i < |items|
      invariant 0 <= i <= |items|
      invariant shortages == ShortageRows(items[..i], current)
      invariant newItems == NewItemRows(items[..i], current, previous, previousCounts)
    {
      var item := items[i];
      assert items[..i + 1][..i] == items[..i];
      var currentCount := CountOr0(current, item.id);
      if currentCount < item.expectedQuantity {
        shortages := shortages + [ShortageRow(item, currentCount, item.expectedQuantity, item.expectedQuantity - currentCount)];
      }
      if previous.Some? {
        if item.id !in previousCounts && currentCount > 0 {
          newItems := newItems + [NewItemRow(item, currentCount)];
        } else if item.createdDate > previous.value.date && currentCount > 0 {
          newItems := newItems + [NewItemRow(item, currentCount)];
        }
      } else if currentCount > 0 {
        newItems := newItems + [NewItemRow(item, currentCount)];
      }
      i := i + 1;
    }
    assert items[..i] == items;
  }

  function IsComplete(s: InventorySession): bool { s.isComplete }

  /** `reports(request)`: `sessions` are the sessions in the order `order_by('-date')` gives;
      the two first completed ones are compared. */
  method Reports(sessions: seq<InventorySession>, items: seq<Item>, counts: seq<InventoryCount>) returns (r: ReportsContext)
    ensures var completed := Filter(sessions, IsComplete);
            completed == [] ==> r == ReportsContext(None, None, [], [], |items|)
    ensures var completed := Filter(sessions, IsComplete);
            completed != [] ==>
              && r.current == Some(completed[0])
              && r.previous == (if |completed| > 1 then Some(completed[1]) else None)
              && r.totalItems == |items|
    ensures var completed := Filter(sessions, IsComplete);
            completed != [] ==>
              var current := SessionCounts(counts, completed[0].id);
              var previousCounts := if |completed| > 1 then SessionCounts(counts, completed[1].id) else map[];
              r.shortages == ShortageRows(items, current)
              && r.newItems == NewItemRows(items, current, r.previous, previousCounts)
  {
    var recent := Filter(sessions, IsComplete);
    if |recent| > 2 {
      recent := recent[..2];
    }
    if |recent| < 1 {
      return ReportsContext(None, None, [], [], |items|);
    }
    var current := recent[0];
    var previous := if |recent| > 1 then Some(recent[1]) else None;
    var currentCounts := SessionCounts(counts, current.id);
    var previousCounts := map[];
    if previous.Some? {
      previousCounts := SessionCounts(counts, previous.value.id);
    }
    var shortages, newItems := ClassifyItems(items, currentCounts, previous, previousCounts);
    r := ReportsContext(Some(current), previous, shortages, newItems, |items|);
  }

  /** Every listed shortage is an item whose current count (0 when it was not counted) is
      below its expected quantity, listed with that count and the positive gap. */
  lemma {:induction false} ShortageRowsSound(items: seq<Item>, current: map<nat, nat>)
    ensures forall k :: 0 <= k < |ShortageRows(items, current)| ==>
              var row := ShortageRows(items, current)[k];
              && row.item in items
              && row.currentCount == CountOr0(current, row.item.id)
              && row.expected == row.item.expectedQuantity
              && row.shortage == row.expected - row.currentCount > 0
    decreases |items|
  {
    if items != [] {
      var n := |items| - 1;
      var front := items[..n];
      ShortageRowsSound(front, current);
      var rows := ShortageRows(items, current);
      var rf := ShortageRows(front, current);
      assert rows[..|rf|] == rf;
      forall k | 0 <= k < |rows|
        ensures rows[k].item in items
      {
        if k < |rf| {
          assert rows[k] == rf[k];
          assert rf[k].item in front;
        }
      }
    }
  }

  /** Every item whose current count is below its expected quantity is listed. */
  lemma {:induction false} ShortageRowsComplete(items: seq<Item>, current: map<nat, nat>)
    ensures forall j :: 0 <= j < |items| && CountOr0(current, items[j].id) < items[j].expectedQuantity ==>
              ShortageOf(items[j], current) in ShortageRows(items, current)
    decreases |items|
  {
    if items != [] {
      var n := |items| - 1;
      var front := items[..n];
      ShortageRowsComplete(front, current);
      forall j | 0 <= j < n ensures items[j] == front[j] { }
    }
  }

  /** Every listed new item passes the test and is listed with its current count. */
  lemma {:induction false} NewItemRowsSound(items: seq<Item>, current: map<nat, nat>, previous: Option<InventorySession>,
                                            previousCounts: map<nat, nat>)
    ensures forall k :: 0 <= k < |NewItemRows(items, current, previous, previousCounts)| ==>
              var row := NewItemRows(items, current, previous, previousCounts)[k];
              && row.item in items
              && row.count == CountOr0(current, row.item.id) > 0
              && IsNew(row.item, row.count, previous, previousCounts)
    decreases |items|
  {
    if items != [] {
      var n := |items| - 1;
      var front := items[..n];
      NewItemRowsSound(front, current, previous, previousCounts);
      var rows := NewItemRows(items, current, previous, previousCounts);
      var rf := NewItemRows(front, current, previous, previousCounts);
      assert rows[..|rf|] == rf;
      forall k | 0 <= k < |rows|
        ensures rows[k].item in items
      {
        if k < |rf| {
          assert rows[k] == rf[k];
          assert rf[k].item in front;
        }
      }
    }
  }

  /** Every item that passes the test is listed, with its current count. */
  lemma {:induction false} NewItemRowsComplete(items: seq<Item>, current: map<nat, nat>, previous: Option<InventorySession>,
                                               previousCounts: map<nat, nat>)
    ensures forall j :: 0 <= j < |items| && IsNew(items[j], CountOr0(current, items[j].id), previous, previousCounts) ==>
              NewItemRow(items[j], CountOr0(current, items[j].id)) in NewItemRows(items, current, previous, previousCounts)
    decreases |items|
  {
    if items != [] {
      var n := |items| - 1;
      var front := items[..n];
      NewItemRowsComplete(front, current, previous, previousCounts);
      forall j | 0 <= j < n ensures items[j] == front[j] { }
    }
  }

  /** The two tests of the `if`/`elif` never list an item twice: new-item rows follow the
      item order, so items with distinct ids give rows with distinct ids. */
  lemma {:induction false} NewItemsOnce(items: seq<Item>, current: map<nat, nat>, previous: Option<InventorySession>,
                                        previousCounts: map<nat, nat>)
    requires forall i, j :: 0 <= i < j < |items| ==> items[i].id != items[j].id
    ensures forall a, b :: 0 <= a < b < |NewItemRows(items, current, previous, previousCounts)| ==>
              NewItemRows(items, current, previous, previousCounts)[a].item.id
                != NewItemRows(items, current, previous, previousCounts)[b].item.id
    decreases |items|
  {
    if items != [] {
      var n := |items| - 1;
      var front := items[..n];
      NewItemsOnce(front, current, previous, previousCounts);
      NewItemRowsSound(front, current, previous, previousCounts);
      var rows := NewItemRows(items, current, previous, previousCounts);
      var rf := NewItemRows(front, current, previous, previousCounts);
      assert rows[..|rf|] == rf;
      forall a, b | 0 <= a < b < |rows|
        ensures rows[a].item.id != rows[b].item.id
      {
        assert rows[a] == rf[a];
        if b >= |rf| {
          assert rows[b].item == items[n];
          assert rf[a].item in front;
          var j :| 0 <= j < |front| && front[j] == rf[a].item;
          assert items[j] == front[j];
        } else {
          assert rows[b] == rf[b];
        }
      }
    }
  }

  /** Without a previous session, the new items are exactly the items counted now. */
  lemma NewWithoutPrevious(item: Item, currentCount: nat, previousCounts: map<nat, nat>)
    ensures IsNew(item, currentCount, None, previousCounts) <==> currentCount > 0
  {
  }

  /** What `delete_item` answers. */
  /** `LoginRedirect` is `@login_required` sending an anonymous request to the login page. */
  datatype Response = LoginRedirect | NotFound | Redirect(view: string, itemId: Option<nat>)

  predicate HasItem(items: seq<Item>, id: nat) {
    exists i :: 0 <= i < |items| && items[i].id == id
  }

  function ItemIsNot(id: nat): Item -> bool { (item: Item) => item.id != id }
  function CountNotOf(id: nat): InventoryCount -> bool { (c: InventoryCount) => c.itemId != id }
  function HistoricalNotOf(id: nat): HistoricalCount -> bool { (c: HistoricalCount) => c.itemId != id }

  /** The tables a deletion touches: the items and the two tables whose `item` foreign key
      has `on_delete=CASCADE`. */
  class Tables {
    var items: seq<Item>
    var counts: seq<InventoryCount>
    var historicalCounts: seq<HistoricalCount>

    constructor (items: seq<Item>, counts: seq<InventoryCount>, historicalCounts: seq<HistoricalCount>)
      ensures this.items == items && this.counts == counts && this.historicalCounts == historicalCounts
    {
      this.items, this.counts, this.historicalCounts := items, counts, historicalCounts;
    }

    /** `delete_item(request, item_id)` behind `@login_required`: an anonymous request goes to
        the login page; an unknown id is a 404; only a POST deletes the item, together with its
        session counts and its historical counts (both `on_delete=CASCADE`), and returns to
        the dashboard; any other method goes back to the edit page and deletes nothing. */
    method DeleteItem(authenticated: bool, requestMethod: string, itemId: nat) returns (response: Response)
      modifies this
      ensures !authenticated ==>
                response == LoginRedirect && items == old(items) && counts == old(counts)
                && historicalCounts == old(historicalCounts)
      ensures authenticated && !HasItem(old(items), itemId) ==>
                response == NotFound && items == old(items) && counts == old(counts)
                && historicalCounts == old(historicalCounts)
      ensures authenticated && HasItem(old(items), itemId) && requestMethod == "POST" ==>
                && response == Redirect("inventory:dashboard", None)
                && items == Filter(old(items), ItemIsNot(itemId))
                && counts == Filter(old(counts), CountNotOf(itemId))
                && historicalCounts == Filter(old(historicalCounts), HistoricalNotOf(itemId))
      ensures authenticated && HasItem(old(items), itemId) && requestMethod != "POST" ==>
                response == Redirect("inventory:edit_item", Some(itemId)) && items == old(items) && counts == old(counts)
                && historicalCounts == old(historicalCounts)
    {
      if !authenticated {
        return LoginRedirect;
      }
      if !HasItem(items, itemId) {
        return NotFound;
      }
      if requestMethod == "POST" {
        items := Filter(items, ItemIsNot(itemId));
        counts := Filter(counts, CountNotOf(itemId));
        historicalCounts := Filter(historicalCounts, HistoricalNotOf(itemId));
        return Redirect("inventory:dashboard", None);
      }
      return Redirect("inventory:edit_item", Some(itemId));
    }
  }

  /** After a POST deletion no item with that id and none of its counts of either kind
      remain, while every other item is kept. */
  lemma DeletionRemovesAll(items: seq<Item>, counts: seq<InventoryCount>, historicalCounts: seq<HistoricalCount>, itemId: nat)
    ensures !HasItem(Filter(items, ItemIsNot(itemId)), itemId)
    ensures forall k :: 0 <= k < |Filter(counts, CountNotOf(itemId))| ==> Filter(counts, CountNotOf(itemId))[k].itemId != itemId
    ensures forall k :: 0 <= k < |Filter(historicalCounts, HistoricalNotOf(itemId))| ==>
              Filter(historicalCounts, HistoricalNotOf(itemId))[k].itemId != itemId
    ensures forall j :: 0 <= j < |items| && items[j].id != itemId ==> items[j] in Filter(items, ItemIsNot(itemId))
  {
    var kept := Filter(items, ItemIsNot(itemId));
    forall i | 0 <= i < |kept| ensures kept[i].id != itemId {
      assert ItemIsNot(itemId)(kept[i]);
    }
  }
}
