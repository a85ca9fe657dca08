/** The reports page: latest and previous counts of an item, the decreases and increases
    lists, and the items with no recent activity. */
module Reports {
  import opened Wrappers
  import opened Model
  import opened Collections
  import opened Sorting
  import opened Resolution
  import Dashboard

  /** The reports comparator on two counts: 0 when either term is unknown, otherwise the
      (year descending, season descending) comparator. */
  function CountCmp(terms: seq<AcademicTerm>, a: HistoricalCount, b: HistoricalCount): int {
    var termA := FindTerm(terms, a.academicTermId);
    var termB := FindTerm(terms, b.academicTermId);
    if termA.None? || termB.None? then 0 else TermCmp(termA.value, termB.value)
  }

  function CountLe(terms: seq<AcademicTerm>): (HistoricalCount, HistoricalCount) -> bool {
    (a: HistoricalCount, b: HistoricalCount) => CountCmp(terms, a, b) <= 0
  }

  /** The item's counts as the page sorts them. */
  function Ordered(counts: seq<HistoricalCount>, terms: seq<AcademicTerm>, itemId: Id): (r: seq<HistoricalCount>)
    ensures multiset(r) == multiset(ItemCounts(counts, itemId))
  {
    Sort(ItemCounts(counts, itemId), CountLe(terms))
  }

  /** `getLatestCount(itemId)`: the first sorted count, or 0. */
  function LatestCount(counts: seq<HistoricalCount>, terms: seq<AcademicTerm>, itemId: Id): (r: int)
    ensures ItemCounts(counts, itemId) == [] ==> r == 0
  {
    var s := Ordered(counts, terms, itemId);
    if |s| > 0 then s[0].countedQuantity else 0
  }

  /** `getPreviousCount(itemId)`: the second sorted count, or 0. */
  function PreviousCount(counts: seq<HistoricalCount>, terms: seq<AcademicTerm>, itemId: Id): (r: int)
    ensures |ItemCounts(counts, itemId)| < 2 ==> r == 0
  {
    var s := Ordered(counts, terms, itemId);
    if |s| > 1 then s[1].countedQuantity else 0
  }

  /** Every count of the item references a term that is loaded. */
  predicate AllTermsKnown(counts: seq<HistoricalCount>, terms: seq<AcademicTerm>, itemId: Id) {
    var ic := ItemCounts(counts, itemId);
    forall i :: 0 <= i < |ic| ==> FindTerm(terms, ic[i].academicTermId).Some?
  }

  /** The term of a count whose term is known. */
  function TermOf(terms: seq<AcademicTerm>, c: HistoricalCount): AcademicTerm
    requires FindTerm(terms, c.academicTermId).Some?
  {
    FindTerm(terms, c.academicTermId).value
  }

  /** With every term known, the two comparators order the item's counts alike, so the
      reports page and the dashboard agree on the latest count. */
  lemma LatestAgreesWithDashboard(counts: seq<HistoricalCount>, terms: seq<AcademicTerm>, itemId: Id)
    requires AllTermsKnown(counts, terms, itemId)
    ensures LatestCount(counts, terms, itemId) == Dashboard.GetLatestCount(counts, terms, itemId)
  {
    var ic := ItemCounts(counts, itemId);
    if ic != [] {
      Dashboard.WithTermsAllKnown(ic, terms);
      var wt := Dashboard.WithTerms(ic, terms);
      assert wt[0] == Dashboard.CountWithTerm(ic[0], TermOf(terms, ic[0]));
      BestIndexAgrees(ic, CountLe(terms), wt, Dashboard.TermLe);
      SortHead(ic, CountLe(terms));
      SortHead(wt, Dashboard.TermLe);
    }
  }

  /** A count's position in time, for a count whose term is known. */
  function CountKey(terms: seq<AcademicTerm>, c: HistoricalCount): int
    requires FindTerm(terms, c.academicTermId).Some?
  {
    TermKey(TermOf(terms, c))
  }

  lemma CountLePreorder(counts: seq<HistoricalCount>, terms: seq<AcademicTerm>, itemId: Id)
    requires AllTermsKnown(counts, terms, itemId)
    ensures TotalPreorderOn(ItemCounts(counts, itemId), CountLe(terms))
  {
    var ic := ItemCounts(counts, itemId);
    forall a, b | a in ic && b in ic ensures CountLe(terms)(a, b) || CountLe(terms)(b, a) {
      TermCmpKey(TermOf(terms, a), TermOf(terms, b));
      TermCmpKey(TermOf(terms, b), TermOf(terms, a));
    }
    forall a, b, c | a in ic && b in ic && c in ic && CountLe(terms)(a, b) && CountLe(terms)(b, c)
      ensures CountLe(terms)(a, c)
    {
      TermCmpKey(TermOf(terms, a), TermOf(terms, b));
      TermCmpKey(TermOf(terms, b), TermOf(terms, c));
      TermCmpKey(TermOf(terms, a), TermOf(terms, c));
    }
  }

  /** With every term known, latest and previous are the first two of the item's counts
      arranged from the latest (year, season) down. */
  lemma LatestAndPreviousInTermOrder(counts: seq<HistoricalCount>, terms: seq<AcademicTerm>, itemId: Id)
    requires AllTermsKnown(counts, terms, itemId)
    requires |ItemCounts(counts, itemId)| >= 2
    ensures var s := Ordered(counts, terms, itemId);
            && multiset(s) == multiset(ItemCounts(counts, itemId))
            && (forall i :: 0 <= i < |s| ==> FindTerm(terms, s[i].academicTermId).Some?)
            && (forall i, j :: 0 <= i < j < |s| ==> CountKey(terms, s[i]) >= CountKey(terms, s[j]))
            && LatestCount(counts, terms, itemId) == s[0].countedQuantity
            && PreviousCount(counts, terms, itemId) == s[1].countedQuantity
  {
    var ic := ItemCounts(counts, itemId);
    var s := Ordered(counts, terms, itemId);
    CountLePreorder(counts, terms, itemId);
    SortSorted(ic, CountLe(terms));
    forall i | 0 <= i < |s| ensures FindTerm(terms, s[i].academicTermId).Some? {
      assert s[i] in multiset(ic);
    }
    forall i, j | 0 <= i < j < |s| ensures CountKey(terms, s[i]) >= CountKey(terms, s[j]) {
      assert CountLe(terms)(s[i], s[j]);
      TermCmpKey(TermOf(terms, s[i]), TermOf(terms, s[j]));
    }
  }

  /** An item with a single count has that count as latest and 0 as previous. */
  lemma SingleCount(counts: seq<HistoricalCount>, terms: seq<AcademicTerm>, itemId: Id)
    requires |ItemCounts(counts, itemId)| == 1
    ensures LatestCount(counts, terms, itemId) == ItemCounts(counts, itemId)[0].countedQuantity
    ensures PreviousCount(counts, terms, itemId) == 0
  {
    var ic := ItemCounts(counts, itemId);
    assert ic[1..] == [];
  }

  /** One row of the decreases and increases lists. */
  datatype ItemChange = ItemChange(item: Item, latest: int, previous: int, change: int)

  function ChangeOf(counts: seq<HistoricalCount>, terms: seq<AcademicTerm>, item: Item): (r: ItemChange)
    ensures r.item == item && r.change == r.latest - r.previous
  {
    var latest := LatestCount(counts, terms, item.id);
    var previous := PreviousCount(counts, terms, item.id);
    ItemChange(item, latest, previous, latest - previous)
  }

  /** `items.map(item => ({ item, latest, previous, change }))`. */
  function Changes(items: seq<Item>, counts: seq<HistoricalCount>, terms: seq<AcademicTerm>): (r: seq<ItemChange>)
    ensures |r| == |items|
    ensures forall i :: 0 <= i < |r| ==> r[i] == ChangeOf(counts, terms, items[i])
  {
    seq(|items|, i requires 0 <= i < |items| => ChangeOf(counts, terms, items[i]))
  }

  function Decreasing(x: ItemChange): bool { x.change < 0 }
  function Increasing(x: ItemChange): bool { x.change > 0 }

  /** `sort((a, b) => a.change - b.change)` and `sort((a, b) => b.change - a.change)`. */
  function Ascending(a: ItemChange, b: ItemChange): bool { a.change - b.change <= 0 }
  function Descending(a: ItemChange, b: ItemChange): bool { b.change - a.change <= 0 }

  /** `itemsWithShortages`: the items whose count went down, largest drop first. */
  function Shortages(items: seq<Item>, counts: seq<HistoricalCount>, terms: seq<AcademicTerm>): (r: seq<ItemChange>)
    ensures multiset(r) == multiset(Filter(Changes(items, counts, terms), Decreasing))
    ensures forall i, j :: 0 <= i < j < |r| ==> r[i].change <= r[j].change
  {
    var r := Sort(Filter(Changes(items, counts, terms), Decreasing), Ascending);
    SortSorted(Filter(Changes(items, counts, terms), Decreasing), Ascending);
    r
  }

  /** `itemsWithIncreases`: the items whose count went up, largest rise first. */
  function Increases(items: seq<Item>, counts: seq<HistoricalCount>, terms: seq<AcademicTerm>): (r: seq<ItemChange>)
    ensures multiset(r) == multiset(Filter(Changes(items, counts, terms), Increasing))
    ensures forall i, j :: 0 <= i < j < |r| ==> r[i].change >= r[j].change
  {
    var r := Sort(Filter(Changes(items, counts, terms), Increasing), Descending);
    SortSorted(Filter(Changes(items, counts, terms), Increasing), Descending);
    r
  }

  /** An item is listed under shortages exactly when its change is negative, under increases
      exactly when it is positive, and so never under both. */
  lemma ShortagesAndIncreases(items: seq<Item>, counts: seq<HistoricalCount>, terms: seq<AcademicTerm>, i: int)
    requires 0 <= i < |items|
    ensures var x := ChangeOf(counts, terms, items[i]);
            && (x in Shortages(items, counts, terms) <==> x.change < 0)
            && (x in Increases(items, counts, terms) <==> x.change > 0)
            && !(x in Shortages(items, counts, terms) && x in Increases(items, counts, terms))
  {
    var ch := Changes(items, counts, terms);
    var x := ChangeOf(counts, terms, items[i]);
    assert ch[i] == x;
    var sh, inc := Shortages(items, counts, terms), Increases(items, counts, terms);
    assert x in sh <==> x in multiset(Filter(ch, Decreasing));
    assert x in inc <==> x in multiset(Filter(ch, Increasing));
  }

  /** An item with a single positive count has previous 0 and is listed under increases. */
  lemma SinglePositiveCountIncreases(items: seq<Item>, counts: seq<HistoricalCount>, terms: seq<AcademicTerm>, i: int)
    requires 0 <= i < |items|
    requires |ItemCounts(counts, items[i].id)| == 1
    requires ItemCounts(counts, items[i].id)[0].countedQuantity > 0
    ensures ChangeOf(counts, terms, items[i]) in Increases(items, counts, terms)
  {
    SingleCount(counts, terms, items[i].id);
    ShortagesAndIncreases(items, counts, terms, i);
  }

  /** Some count of the table is for the item. */
  predicate HasCounts(counts: seq<HistoricalCount>, itemId: Id) {
    exists i :: 0 <= i < |counts| && counts[i].itemId == itemId
  }

  /** Some count of the table is for the item and the term. */
  predicate HasCountFor(counts: seq<HistoricalCount>, itemId: Id, termId: Id) {
    exists i :: 0 <= i < |counts| && counts[i].itemId == itemId && counts[i].academicTermId == termId
  }

  /** The filter condition of `itemsNoRecentActivity`, as written. */
  function Stale(counts: seq<HistoricalCount>, terms: seq<AcademicTerm>): Item -> bool {
    (item: Item) =>
      var itemCounts := ItemCounts(counts, item.id);
      if itemCounts == [] then true
      else if terms == [] then false
      else !(exists i :: 0 <= i < |itemCounts| && itemCounts[i].academicTermId == terms[0].id)
  }

  /** `itemsNoRecentActivity`. */
  function NoRecentActivity(items: seq<Item>, counts: seq<HistoricalCount>, terms: seq<AcademicTerm>): (r: seq<Item>)
    ensures forall i :: 0 <= i < |r| ==> r[i] in items && Stale(counts, terms)(r[i])
    ensures forall i :: 0 <= i < |items| && Stale(counts, terms)(items[i]) ==> items[i] in r
  {
    Filter(items, Stale(counts, terms))
  }

  /** The three cases of no recent activity: an item without counts is always listed; with no
      terms loaded an item with counts never is; otherwise an item with counts is listed
      exactly when none of them is for the first loaded term. */
  lemma StaleCases(counts: seq<HistoricalCount>, terms: seq<AcademicTerm>, item: Item)
    ensures !HasCounts(counts, item.id) ==> Stale(counts, terms)(item)
    ensures HasCounts(counts, item.id) && terms == [] ==> !Stale(counts, terms)(item)
    ensures HasCounts(counts, item.id) && terms != [] ==>
              (Stale(counts, terms)(item) <==> !HasCountFor(counts, item.id, terms[0].id))
  {
    var ic := ItemCounts(counts, item.id);
    if HasCounts(counts, item.id) {
      var i :| 0 <= i < |counts| && counts[i].itemId == item.id;
      assert counts[i] in ic;
      if terms != [] {
        var t := terms[0].id;
        if HasCountFor(counts, item.id, t) {
          var j :| 0 <= j < |counts| && counts[j].itemId == item.id && counts[j].academicTermId == t;
          assert counts[j] in ic;
        }
        if exists k :: 0 <= k < |ic| && ic[k].academicTermId == t {
          var k :| 0 <= k < |ic| && ic[k].academicTermId == t;
          assert ic[k] in counts;
        }
      }
    }
  }
}
