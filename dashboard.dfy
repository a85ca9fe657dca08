/** The dashboard: the latest count of an item, the search and category filter, the grouping
    of the filtered items under their category names, the expanded-groups toggle and the
    per-group total. */
module Dashboard {
  import opened Wrappers
  import opened Model
  import opened Text
  import opened Collections
  import opened Sorting
  import opened Resolution

  /** A count together with the term it references. */
  datatype CountWithTerm = CountWithTerm(count: HistoricalCount, term: AcademicTerm)

  /** `itemCounts.map(hc => ({ count: hc, term: terms.find(...) })).filter(x => x.term !== undefined)`. */
  function WithTerms(xs: seq<HistoricalCount>, terms: seq<AcademicTerm>): (r: seq<CountWithTerm>)
    ensures |r| <= |xs|
    ensures forall i :: 0 <= i < |r| ==> r[i].count in xs && FindTerm(terms, r[i].count.academicTermId) == Some(r[i].term)
    ensures r == [] <==> forall i :: 0 <= i < |xs| ==> FindTerm(terms, xs[i].academicTermId).None?
  {
    if xs == [] then []
    else
      var rest := WithTerms(xs[1..], terms);
      match FindTerm(terms, xs[0].academicTermId)
      case Some(t) => [CountWithTerm(xs[0], t)] + rest
      case None =>
        assert forall i :: 1 <= i < |xs| ==> xs[i] == xs[1..][i - 1];
        rest
  }

  /** When every count's term is known, each count keeps its place and gets its term. */
  lemma {:induction false} WithTermsAllKnown(xs: seq<HistoricalCount>, terms: seq<AcademicTerm>)
    requires forall i :: 0 <= i < |xs| ==> FindTerm(terms, xs[i].academicTermId).Some?
    ensures |WithTerms(xs, terms)| == |xs|
    ensures forall i :: 0 <= i < |xs| ==>
              WithTerms(xs, terms)[i] == CountWithTerm(xs[i], FindTerm(terms, xs[i].academicTermId).value)
  {
    if xs != [] {
      var rest := xs[1..];
      forall i | 0 <= i < |rest|
        ensures FindTerm(terms, rest[i].academicTermId).Some?
      {
        assert rest[i] == xs[i + 1];
      }
      WithTermsAllKnown(rest, terms);
      var t := FindTerm(terms, xs[0].academicTermId).value;
      assert WithTerms(xs, terms) == [CountWithTerm(xs[0], t)] + WithTerms(rest, terms);
      forall i | 1 <= i < |xs|
        ensures WithTerms(xs, terms)[i] == CountWithTerm(xs[i], FindTerm(terms, xs[i].academicTermId).value)
      {
        assert xs[i] == rest[i - 1];
      }
    }
  }

  /** The dashboard comparator on count/term pairs, as the relation "may come first". */
  function TermLe(a: CountWithTerm, b: CountWithTerm): bool {
    TermCmp(a.term, b.term) <= 0
  }

  /** `a.importedAt?.toMillis?.() || 0`. */
  function ImportedMillis(c: HistoricalCount): int {
    c.importedAt.GetOr(0)
  }

  /** The fallback comparator `dateB - dateA`, as the relation "may come first". */
  function ImportedLe(a: HistoricalCount, b: HistoricalCount): bool {
    ImportedMillis(b) - ImportedMillis(a) <= 0
  }

  /** `getLatestCount(itemId)` on the loaded counts and terms. */
  function GetLatestCount(counts: seq<HistoricalCount>, terms: seq<AcademicTerm>, itemId: Id): (r: int)
    ensures ItemCounts(counts, itemId) == [] ==> r == 0
  {
    var itemCounts := ItemCounts(counts, itemId);
    if itemCounts == [] then 0
    else
      var countsWithTerms := WithTerms(itemCounts, terms);
      if countsWithTerms != [] then Sort(countsWithTerms, TermLe)[0].count.countedQuantity
      else Sort(itemCounts, ImportedLe)[0].countedQuantity
  }

  lemma TermLePreorder(xs: seq<CountWithTerm>)
    ensures TotalPreorderOn(xs, TermLe)
  {
    forall a, b | a in xs && b in xs ensures TermLe(a, b) || TermLe(b, a) {
      TermCmpKey(a.term, b.term);
      TermCmpKey(b.term, a.term);
    }
    forall a, b, c | a in xs && b in xs && c in xs && TermLe(a, b) && TermLe(b, c) ensures TermLe(a, c) {
      TermCmpKey(a.term, b.term);
      TermCmpKey(b.term, c.term);
      TermCmpKey(a.term, c.term);
    }
  }

  /** Position `k` holds a maximal (year, season), and every pair before it has a strictly
      earlier one. */
  predicate LatestTermAt(wt: seq<CountWithTerm>, k: int) {
    && 0 <= k < |wt|
    && (forall j :: 0 <= j < |wt| ==> TermKey(wt[j].term) <= TermKey(wt[k].term))
    && (forall j :: 0 <= j < k ==> TermKey(wt[j].term) < TermKey(wt[k].term))
  }

  /** The pair the stable sort brings to the front has a maximal (year, season), and every
      pair before it has a strictly earlier one. */
  lemma BestTermIsLatest(wt: seq<CountWithTerm>)
    requires wt != []
    ensures LatestTermAt(wt, BestIndex(wt, TermLe))
  {
    var k := BestIndex(wt, TermLe);
    TermLePreorder(wt);
    BestIndexIsBest(wt, TermLe);
    forall j | 0 <= j < |wt| ensures TermKey(wt[j].term) <= TermKey(wt[k].term) {
      TermCmpKey(wt[k].term, wt[j].term);
    }
    forall j | 0 <= j < k ensures TermKey(wt[j].term) < TermKey(wt[k].term) {
      TermCmpKey(wt[j].term, wt[k].term);
    }
  }

  /** When some count references a known term, the latest count comes from a count whose
      (year, season) is maximal among those counts, and every such count before it in the
      table has a strictly earlier term: ties keep table order, and no timestamp breaks them. */
  lemma LatestFromLatestTerm(counts: seq<HistoricalCount>, terms: seq<AcademicTerm>, itemId: Id)
    requires WithTerms(ItemCounts(counts, itemId), terms) != []
    ensures var wt := WithTerms(ItemCounts(counts, itemId), terms);
            exists k :: LatestTermAt(wt, k) && GetLatestCount(counts, terms, itemId) == wt[k].count.countedQuantity
  {
    var wt := WithTerms(ItemCounts(counts, itemId), terms);
    assert ItemCounts(counts, itemId) != [];
    assert GetLatestCount(counts, terms, itemId) == Sort(wt, TermLe)[0].count.countedQuantity;
    SortHead(wt, TermLe);
    BestTermIsLatest(wt);
    var k := BestIndex(wt, TermLe);
    assert LatestTermAt(wt, k) && GetLatestCount(counts, terms, itemId) == wt[k].count.countedQuantity;
  }

  lemma ImportedLePreorder(xs: seq<HistoricalCount>)
    ensures TotalPreorderOn(xs, ImportedLe)
  {
  }

  /** Position `k` holds the greatest import time, and every count before it an earlier one. */
  predicate LatestImportAt(ic: seq<HistoricalCount>, k: int) {
    && 0 <= k < |ic|
    && (forall j :: 0 <= j < |ic| ==> ImportedMillis(ic[j]) <= ImportedMillis(ic[k]))
    && (forall j :: 0 <= j < k ==> ImportedMillis(ic[j]) < ImportedMillis(ic[k]))
  }

  /** When none of the item's counts references a known term, the count with the greatest
      import time wins (a missing time counts as 0), the first of them in table order. */
  lemma LatestFromImportTime(counts: seq<HistoricalCount>, terms: seq<AcademicTerm>, itemId: Id)
    requires ItemCounts(counts, itemId) != []
    requires WithTerms(ItemCounts(counts, itemId), terms) == []
    ensures var ic := ItemCounts(counts, itemId);
            exists k :: LatestImportAt(ic, k) && GetLatestCount(counts, terms, itemId) == ic[k].countedQuantity
  {
    var ic := ItemCounts(counts, itemId);
    assert GetLatestCount(counts, terms, itemId) == Sort(ic, ImportedLe)[0].countedQuantity;
    var k := BestIndex(ic, ImportedLe);
    SortHead(ic, ImportedLe);
    ImportedLePreorder(ic);
    BestIndexIsBest(ic, ImportedLe);
    assert LatestImportAt(ic, k);
  }

  /** `!searchQuery || name/location/serialFrequency .toLowerCase().includes(searchQuery.toLowerCase())`. */
  predicate MatchesSearch(item: Item, search: string) {
    var q := ToLower(search);
    search == []
    || Contains(ToLower(item.name), q)
    || (item.location.Some? && Contains(ToLower(item.location.value), q))
    || (item.serialFrequency.Some? && Contains(ToLower(item.serialFrequency.value), q))
  }

  /** `!selectedCategory || item.categoryId === selectedCategory`. */
  predicate MatchesCategory(item: Item, selected: Id) {
    selected == [] || item.categoryId == selected
  }

  function Matches(search: string, selected: Id): Item -> bool {
    (item: Item) => MatchesSearch(item, search) && MatchesCategory(item, selected)
  }

  /** `filteredItems`. */
  function FilteredItems(items: seq<Item>, search: string, selected: Id): (r: seq<Item>)
    ensures forall i :: 0 <= i < |r| ==> r[i] in items && MatchesCategory(r[i], selected)
    ensures forall i :: 0 <= i < |r| ==> MatchesSearch(r[i], search)
    ensures forall i :: 0 <= i < |items| && MatchesSearch(items[i], search) && MatchesCategory(items[i], selected)
              ==> items[i] in r
  {
    Filter(items, Matches(search, selected))
  }

  /** With an empty search and no category selected, every item is shown, in order. */
  lemma FilterKeepsAll(items: seq<Item>)
    ensures FilteredItems(items, "", "") == items
  {
    FilterAll(items, Matches("", ""));
  }

  /** With an empty search, selecting a category shows exactly its items, in order. */
  lemma FilterByCategory(items: seq<Item>, selected: Id)
    requires selected != []
    ensures FilteredItems(items, "", selected) == Filter(items, (item: Item) => item.categoryId == selected)
  {
    FilterCongruent(items, Matches("", selected), (item: Item) => item.categoryId == selected);
  }

  lemma LowerUpperLower(s: string)
    ensures ToLower(ToUpper(s)) == ToLower(s)
  {
  }

  /** The search ignores ASCII case: a query and its upper-cased form show the same items. */
  lemma SearchIgnoresCase(items: seq<Item>, search: string, selected: Id)
    ensures FilteredItems(items, ToUpper(search), selected) == FilteredItems(items, search, selected)
  {
    LowerUpperLower(search);
    FilterCongruent(items, Matches(ToUpper(search), selected), Matches(search, selected));
  }

  /** `category?.name || 'Uncategorized'` for the category with the item's id. */
  function CategoryLabel(categories: seq<Category>, categoryId: Id): (shown: string)
    ensures shown != []
  {
    var found := FindCategory(categories, categoryId);
    if found.Some? && found.value.name != [] then found.value.name else "Uncategorized"
  }

  /** `categories.find((c) => c.id === id)`. */
  function FindCategory(categories: seq<Category>, id: Id): (r: Option<Category>)
    ensures r.Some? ==> r.value in categories && r.value.id == id
    ensures r.None? <==> forall i :: 0 <= i < |categories| ==> categories[i].id != id
  {
    if categories == [] then None
    else if categories[0].id == id then Some(categories[0])
    else FindCategory(categories[1..], id)
  }

  function LabelOf(categories: seq<Category>): Item -> string {
    (item: Item) => CategoryLabel(categories, item.categoryId)
  }

  /** `itemsByCategory`: the filtered items pushed, one by one, into the list of their
      category's label; `order` is the order in which labels first appear. */
  method ItemsByCategory(filtered: seq<Item>, categories: seq<Category>)
    returns (order: seq<string>, groups: map<string, seq<Item>>)
    ensures groups.Keys == set item | item in filtered :: CategoryLabel(categories, item.categoryId)
    ensures forall k :: k in groups ==> groups[k] == Filter(filtered, KeyIs(LabelOf(categories), k))
    ensures forall i, j :: 0 <= i < j < |order| ==> order[i] != order[j]
    ensures forall k :: k in order <==> k in groups
  {
    order, groups := GroupBy(filtered, LabelOf(categories));
  }

  /** Each filtered item is in exactly one group, the one under its own label, and the
      groups hold as many items as were filtered. */
  lemma GroupedOnce(filtered: seq<Item>, categories: seq<Category>, order: seq<string>,
                    groups: map<string, seq<Item>>, item: Item, k: string)
    requires forall k :: k in groups ==> groups[k] == Filter(filtered, KeyIs(LabelOf(categories), k))
    requires forall i, j :: 0 <= i < j < |order| ==> order[i] != order[j]
    requires groups.Keys == set item | item in filtered :: CategoryLabel(categories, item.categoryId)
    requires forall k :: k in order <==> k in groups
    requires item in filtered && k in groups
    ensures item in groups[k] <==> CategoryLabel(categories, item.categoryId) == k
    ensures GroupTotal(filtered, LabelOf(categories), order) == |filtered|
  {
    forall i | 0 <= i < |filtered| ensures LabelOf(categories)(filtered[i]) in order {
      assert CategoryLabel(categories, filtered[i].categoryId) in groups;
    }
    GroupSizes(filtered, LabelOf(categories), order);
  }

  /** `toggleCategory(name)` on a copy of the expanded set. */
  function ToggleCategory(expanded: set<string>, name: string): (r: set<string>)
    ensures name in r <==> name !in expanded
    ensures forall other :: other != name ==> (other in r <==> other in expanded)
  {
    if name in expanded then expanded - {name} else expanded + {name}
  }

  /** Toggling the same group twice restores the expanded set. */
  lemma ToggleTwice(expanded: set<string>, name: string)
    ensures ToggleCategory(ToggleCategory(expanded, name), name) == expanded
  {
  }

  /** `categoryItems.reduce((sum, item) => sum + getLatestCount(item.id), 0)`. */
  function GroupTotalQuantity(groupItems: seq<Item>, counts: seq<HistoricalCount>, terms: seq<AcademicTerm>): int {
    Sum(groupItems, (item: Item) => GetLatestCount(counts, terms, item.id))
  }

  /** With non-negative stored quantities, every latest count and every group total is non-negative. */
  lemma LatestNonNegative(counts: seq<HistoricalCount>, terms: seq<AcademicTerm>, itemId: Id)
    requires forall i :: 0 <= i < |counts| ==> counts[i].countedQuantity >= 0
    ensures GetLatestCount(counts, terms, itemId) >= 0
  {
    var ic := ItemCounts(counts, itemId);
    if ic != [] {
      var wt := WithTerms(ic, terms);
      if wt != [] {
        SortHead(wt, TermLe);
        assert wt[BestIndex(wt, TermLe)].count in ic;
      } else {
        SortHead(ic, ImportedLe);
        assert ic[BestIndex(ic, ImportedLe)] in counts;
      }
    }
  }

  lemma GroupTotalNonNegative(groupItems: seq<Item>, counts: seq<HistoricalCount>, terms: seq<AcademicTerm>)
    requires forall i :: 0 <= i < |counts| ==> counts[i].countedQuantity >= 0
    ensures GroupTotalQuantity(groupItems, counts, terms) >= 0
  {
    forall item | item in groupItems ensures GetLatestCount(counts, terms, item.id) >= 0 {
      LatestNonNegative(counts, terms, item.id);
    }
    SumNonNegative(groupItems, (item: Item) => GetLatestCount(counts, terms, item.id));
  }
}
