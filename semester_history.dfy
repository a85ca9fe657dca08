/** The semester-history page: the counts of the selected academic term, grouped under the
    name of their item's category, and the three summary figures above the tables. */
module SemesterHistory {
  import opened Wrappers
  import opened Model
  import opened Collections
  import opened Store
  import opened Dashboard

  /** One table row: an item together with its count in the selected term. */
  datatype Row = Row(item: Item, count: HistoricalCount)

  /** `items.find((i) => i.id === id)`. */
  function FindItem(items: seq<Item>, id: Id): (r: Option<Item>)
    ensures r.Some? ==> r.value in items && r.value.id == id
    ensures r.None? <==> forall i :: 0 <= i < |items| ==> items[i].id != id
  {
    if items == [] then None
    else if items[0].id == id then Some(items[0])
    else FindItem(items[1..], id)
  }

  /** The rows the `forEach` pushes, in count order: a count whose item is not loaded is
      skipped (`if (!item) return;`). */
  function Rows(counts: seq<HistoricalCount>, items: seq<Item>): seq<Row> {
    if counts == [] then []
    else
      var c := counts[|counts| - 1];
      Rows(counts[..|counts| - 1], items)
        + (match FindItem(items, c.itemId) case Some(item) => [Row(item, c)] case None => [])
  }

  /** `category?.name || 'Uncategorized'` for the row's item. */
  function RowLabel(categories: seq<Category>): Row -> string {
    (row: Row) => CategoryLabel(categories, row.item.categoryId)
  }

  function ItemMissing(items: seq<Item>): HistoricalCount -> bool {
    (c: HistoricalCount) => FindItem(items, c.itemId).None?
  }

  /** The loaded counts that no row shows. */
  function Dropped(counts: seq<HistoricalCount>, items: seq<Item>): seq<HistoricalCount> {
    Filter(counts, ItemMissing(items))
  }

  function RowQuantity(row: Row): int {
    row.count.countedQuantity
  }

  /** The 'Total Quantity' figure: `historicalCounts.reduce((sum, hc) => sum + hc.countedQuantity, 0)`. */
  function TotalQuantity(counts: seq<HistoricalCount>): int {
    Sum(counts, (c: HistoricalCount) => c.countedQuantity)
  }

  /** Every row pairs a loaded count with the item it names, and every count whose item is
      loaded gives a row. */
  lemma {:induction false} RowsExactly(counts: seq<HistoricalCount>, items: seq<Item>)
    ensures var rows := Rows(counts, items);
            forall i :: 0 <= i < |rows| ==> rows[i].count in counts && FindItem(items, rows[i].count.itemId) == Some(rows[i].item)
    ensures var rows := Rows(counts, items);
            forall j :: 0 <= j < |counts| && FindItem(items, counts[j].itemId).Some? ==>
              Row(FindItem(items, counts[j].itemId).value, counts[j]) in rows
    decreases |counts|
  {
    if counts != [] {
      var n := |counts| - 1;
      var front := counts[..n];
      RowsExactly(front, items);
      var rows := Rows(counts, items);
      var rf := Rows(front, items);
      assert rows[..|rf|] == rf;
      forall i | 0 <= i < |rows|
        ensures rows[i].count in counts && FindItem(items, rows[i].count.itemId) == Some(rows[i].item)
      {
        if i < |rf| {
          assert rows[i] == rf[i];
        }
      }
      forall j | 0 <= j < |counts| && FindItem(items, counts[j].itemId).Some?
        ensures Row(FindItem(items, counts[j].itemId).value, counts[j]) in rows
      {
        if j < n {
          assert counts[j] == front[j];
        }
      }
    }
  }

  /** Each loaded count is either shown in a row or dropped, never both: the rows and the
      dropped counts together account for every loaded count and for the whole 'Total
      Quantity', which therefore includes the quantities of counts no table shows. */
  lemma {:induction false} RowsAndDropped(counts: seq<HistoricalCount>, items: seq<Item>)
    ensures |Rows(counts, items)| + |Dropped(counts, items)| == |counts|
    ensures Sum(Rows(counts, items), RowQuantity) + Sum(Dropped(counts, items), (c: HistoricalCount) => c.countedQuantity)
            == TotalQuantity(counts)
    decreases |counts|
  {
    if counts != [] {
      var n := |counts| - 1;
      var front, c := counts[..n], counts[n];
      assert counts == front + [c];
      RowsAndDropped(front, items);
      FilterSnoc(front, c, ItemMissing(items));
      var rowsTail := match FindItem(items, c.itemId) case Some(item) => [Row(item, c)] case None => [];
      var droppedTail := if ItemMissing(items)(c) then [c] else [];
      SumAppend(Rows(front, items), rowsTail, RowQuantity);
      SumAppend(Dropped(front, items), droppedTail, (c: HistoricalCount) => c.countedQuantity);
    }
  }

  /** The 'Total Items' figure `historicalCounts.length` equals the number of rows exactly
      when every loaded count names a loaded item. */
  lemma TotalItemsIsRows(counts: seq<HistoricalCount>, items: seq<Item>)
    ensures |counts| == |Rows(counts, items)| <==> forall j :: 0 <= j < |counts| ==> FindItem(items, counts[j].itemId).Some?
  {
    RowsAndDropped(counts, items);
    FilterEmpty(counts, ItemMissing(items));
  }

  /** `countsByCategory`: the `forEach` over the loaded counts skips a count whose item is
      not loaded and pushes every other one, as a row, into the list under its category's
      label; `order` lists the labels in the order the dictionary first received them. */
  method CountsByCategory(counts: seq<HistoricalCount>, items: seq<Item>, categories: seq<Category>)
    returns (order: seq<string>, groups: map<string, seq<Row>>)
    ensures groups.Keys == KeySet(Rows(counts, items), RowLabel(categories))
    ensures forall k :: k in groups ==> groups[k] == Filter(Rows(counts, items), KeyIs(RowLabel(categories), k))
    ensures forall i, j :: 0 <= i < j < |order| ==> order[i] != order[j]
    ensures forall k :: k in order <==> k in groups
  {
    order, groups := GroupBy(Rows(counts, items), RowLabel(categories));
  }

  /** A count whose item is not loaded appears in no group; any other count appears, with its
      item, in the group under its category's label and in no other group. */
  lemma CountGroupedOnce(counts: seq<HistoricalCount>, items: seq<Item>, categories: seq<Category>,
                         groups: map<string, seq<Row>>, j: int)
    requires groups.Keys == KeySet(Rows(counts, items), RowLabel(categories))
    requires forall k :: k in groups ==> groups[k] == Filter(Rows(counts, items), KeyIs(RowLabel(categories), k))
    requires 0 <= j < |counts|
    ensures FindItem(items, counts[j].itemId).None? ==>
              forall k, row :: k in groups && row in groups[k] ==> row.count != counts[j]
    ensures FindItem(items, counts[j].itemId).Some? ==>
              var row := Row(FindItem(items, counts[j].itemId).value, counts[j]);
              forall k :: k in groups ==> (row in groups[k] <==> k == CategoryLabel(categories, row.item.categoryId))
    ensures FindItem(items, counts[j].itemId).Some? ==>
              CategoryLabel(categories, FindItem(items, counts[j].itemId).value.categoryId) in groups
  {
    RowsExactly(counts, items);
    var rows := Rows(counts, items);
    forall k, row | k in groups && row in groups[k] ensures row in rows {
      var i :| 0 <= i < |groups[k]| && groups[k][i] == row;
    }
    var found := FindItem(items, counts[j].itemId);
    if found.Some? {
      var row := Row(found.value, counts[j]);
      assert row in rows;
      assert RowLabel(categories)(row) in KeySet(rows, RowLabel(categories));
    }
  }

  /** The 'Categories' figure `Object.keys(countsByCategory).length` is the number of labels
      in `order`, one per group. */
  lemma {:induction false} GroupCount(order: seq<string>, groups: map<string, seq<Row>>)
    requires forall i, j :: 0 <= i < j < |order| ==> order[i] != order[j]
    requires forall k :: k in order <==> k in groups
    ensures |groups| == |order|
  {
    DistinctCard(order);
    assert groups.Keys == set k | k in order;
  }

  lemma {:induction false} DistinctCard(xs: seq<string>)
    requires forall i, j :: 0 <= i < j < |xs| ==> xs[i] != xs[j]
    ensures |set k | k in xs| == |xs|
  {
    if xs != [] {
      var n := |xs| - 1;
      DistinctCard(xs[..n]);
      assert (set k | k in xs) == (set k | k in xs[..n]) + {xs[n]};
      assert xs[n] !in (set k | k in xs[..n]);
    }
  }

  /** The page's loaded data and the selected term. */
  class SemesterHistoryPage {
    var terms: seq<AcademicTerm>
    var selectedTermId: Id
    var historicalCounts: seq<HistoricalCount>
    var items: seq<Item>
    var categories: seq<Category>

    constructor ()
      ensures terms == [] && selectedTermId == [] && historicalCounts == [] && items == [] && categories == []
    {
      terms, selectedTermId, historicalCounts, items, categories := [], [], [], [], [];
    }

    /** `loadData()`: the terms, items and categories are stored, and the selection moves to
        the first term when any term was loaded. */
    method LoadData(termsData: seq<AcademicTerm>, itemsData: seq<Item>, categoriesData: seq<Category>)
      modifies this`terms, this`items, this`categories, this`selectedTermId
      ensures terms == termsData && items == itemsData && categories == categoriesData
      ensures termsData != [] ==> selectedTermId == termsData[0].id
      ensures termsData == [] ==> selectedTermId == old(selectedTermId)
    {
      terms, items, categories := termsData, itemsData, categoriesData;
      if |termsData| > 0 {
        selectedTermId := termsData[0].id;
      }
    }

    /** `loadTermData()`: with a term selected, the counts become that term's counts as
        `getHistoricalCounts(undefined, selectedTermId)` reads them from `stored` at `now`. */
    method LoadTermData(stored: seq<HistoricalCount>, now: int)
      modifies this`historicalCounts
      ensures selectedTermId != [] ==> historicalCounts == GetHistoricalCounts(stored, [], selectedTermId, now)
      ensures selectedTermId == [] ==> historicalCounts == old(historicalCounts)
    {
      if selectedTermId != [] {
        historicalCounts := GetHistoricalCounts(stored, [], selectedTermId, now);
      }
    }
  }

  /** Every count the page loads belongs to the selected term and has an import time. */
  lemma LoadedCountsOfTerm(stored: seq<HistoricalCount>, termId: Id, now: int)
    requires termId != []
    ensures forall i :: 0 <= i < |GetHistoricalCounts(stored, [], termId, now)| ==>
              GetHistoricalCounts(stored, [], termId, now)[i].academicTermId == termId &&
              GetHistoricalCounts(stored, [], termId, now)[i].importedAt.Some?
  {
    GetHistoricalCountsSelected(stored, [], termId, now);
  }
}
