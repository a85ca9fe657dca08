/** The categories page: creating and renaming categories, the per-category item counts it
    shows, and the guarded deletion of a category that still holds items (every item must
    first be given a new category; the items are moved group by group and only then is the
    category deleted). The page state is a class over the database of `Store`; `confirm()`
    is a parameter. */
module CategoriesPage {
  import opened Wrappers
  import opened Model
  import opened Text
  import opened Collections
  import opened Store

  const NameRequired := "Category name is required"
  const UpdateFailed := "Failed to update category"
  const ReassignFailed := "Failed to reassign items and delete category"

  /** The refusal shown while `n` items still lack a new category. */
  function PleaseAssign(n: nat): string {
    "Please assign all " + IntToString(n) + " " + (if n == 1 then "item" else "items")
    + " to a category before deleting."
  }

  // ---------------------------------------------------------------------------------------
  // The chosen categories: `itemReassignments`, an object from item id to category id whose
  // entries keep the order in which the items were first given a choice.

  type Choices = seq<(Id, Id)>

  predicate KeysUnique(choices: Choices) {
    forall i, j :: 0 <= i < j < |choices| ==> choices[i].0 != choices[j].0
  }

  /** `itemReassignments[itemId]`. */
  function Lookup(choices: Choices, itemId: Id): (r: Option<Id>)
    ensures r.None? <==> forall i :: 0 <= i < |choices| ==> choices[i].0 != itemId
    ensures r.Some? ==> (itemId, r.value) in choices
  {
    if choices == [] then None
    else if choices[0].0 == itemId then Some(choices[0].1)
    else Lookup(choices[1..], itemId)
  }

  /** With unique keys, each entry is what a lookup of its key finds. */
  lemma LookupEntry(choices: Choices, i: int)
    requires KeysUnique(choices) && 0 <= i < |choices|
    ensures Lookup(choices, choices[i].0) == Some(choices[i].1)
  {
    var r := Lookup(choices, choices[i].0);
    var j :| 0 <= j < |choices| && choices[j] == (choices[i].0, r.value);
    assert j == i;
  }

  /** `{...itemReassignments, [itemId]: categoryId}`: a new key is appended, an existing one
      keeps its place and takes the new value. */
  function SetChoice(choices: Choices, itemId: Id, categoryId: Id): (r: Choices)
    ensures Lookup(r, itemId) == Some(categoryId)
    ensures forall k :: k != itemId ==> Lookup(r, k) == Lookup(choices, k)
  {
    if choices == [] then [(itemId, categoryId)]
    else if choices[0].0 == itemId then [(itemId, categoryId)] + choices[1..]
    else [choices[0]] + SetChoice(choices[1..], itemId, categoryId)
  }

  /** A choice adds no key other than its own item's. */
  lemma {:induction false} SetChoiceKeys(choices: Choices, itemId: Id, categoryId: Id)
    ensures var r := SetChoice(choices, itemId, categoryId);
            forall i :: 0 <= i < |r| ==> r[i].0 == itemId || Lookup(choices, r[i].0).Some?
  {
    if choices != [] && choices[0].0 != itemId {
      SetChoiceKeys(choices[1..], itemId, categoryId);
    }
  }

  /** Choosing keeps one entry per item. */
  lemma {:induction false} SetChoiceUnique(choices: Choices, itemId: Id, categoryId: Id)
    requires KeysUnique(choices)
    ensures KeysUnique(SetChoice(choices, itemId, categoryId))
  {
    if choices != [] && choices[0].0 != itemId {
      var rest := SetChoice(choices[1..], itemId, categoryId);
      SetChoiceUnique(choices[1..], itemId, categoryId);
      SetChoiceKeys(choices[1..], itemId, categoryId);
      assert Lookup(choices[1..], choices[0].0).None?;
      forall i | 0 <= i < |rest| ensures rest[i].0 != choices[0].0 {
        if rest[i].0 != itemId {
          assert Lookup(choices[1..], rest[i].0).Some?;
        }
      }
    }
  }

  /** A first choice is appended; a changed choice replaces the item's first entry where it
      stands, and every other entry stays. */
  lemma SetChoicePlace(choices: Choices, itemId: Id, categoryId: Id)
    ensures Lookup(choices, itemId).None? ==> SetChoice(choices, itemId, categoryId) == choices + [(itemId, categoryId)]
    ensures Lookup(choices, itemId).Some? ==>
              exists k :: && 0 <= k < |choices| && choices[k].0 == itemId
                          && (forall j :: 0 <= j < k ==> choices[j].0 != itemId)
                          && SetChoice(choices, itemId, categoryId) == choices[k := (itemId, categoryId)]
  {
    if Lookup(choices, itemId).None? {
      SetChoiceAppends(choices, itemId, categoryId);
    } else {
      var k := SetChoiceReplaces(choices, itemId, categoryId);
    }
  }

  lemma {:induction false} SetChoiceAppends(choices: Choices, itemId: Id, categoryId: Id)
    requires Lookup(choices, itemId).None?
    ensures SetChoice(choices, itemId, categoryId) == choices + [(itemId, categoryId)]
  {
    if choices != [] {
      assert Lookup(choices, itemId) == Lookup(choices[1..], itemId);
      assert SetChoice(choices, itemId, categoryId) == [choices[0]] + SetChoice(choices[1..], itemId, categoryId);
      SetChoiceAppends(choices[1..], itemId, categoryId);
      assert [choices[0]] + (choices[1..] + [(itemId, categoryId)]) == choices + [(itemId, categoryId)];
    }
  }

  lemma {:induction false} SetChoiceReplaces(choices: Choices, itemId: Id, categoryId: Id) returns (k: nat)
    requires Lookup(choices, itemId).Some?
    ensures k < |choices| && choices[k].0 == itemId
    ensures forall j :: 0 <= j < k ==> choices[j].0 != itemId
    ensures SetChoice(choices, itemId, categoryId) == choices[k := (itemId, categoryId)]
  {
    if choices[0].0 == itemId {
      k := 0;
    } else {
      assert Lookup(choices, itemId) == Lookup(choices[1..], itemId);
      var k' := SetChoiceReplaces(choices[1..], itemId, categoryId);
      k := k' + 1;
      forall j | 0 <= j < k ensures choices[j].0 != itemId {
        if j > 0 { assert choices[j] == choices[1..][j - 1]; }
      }
      assert [choices[0]] + choices[1..][k' := (itemId, categoryId)] == choices[k := (itemId, categoryId)];
    }
  }

  /** `!itemReassignments[item.id]`: no category chosen, or the empty choice. */
  function Unchosen(choices: Choices): Item -> bool {
    (item: Item) => !Truthy(Lookup(choices, item.id))
  }

  /** An item after the deletion: moved to its chosen category when it has one. */
  function Moved(item: Item, choices: Choices): (r: Item)
    ensures r.id == item.id
  {
    match Lookup(choices, item.id)
    case Some(c) => item.(categoryId := c)
    case None => item
  }

  /** The choices drop-down offers every category except the one being deleted. */
  function ReassignTargets(categories: seq<Category>, deleting: Category): (r: seq<Category>)
    ensures forall i :: 0 <= i < |r| ==> r[i].id != deleting.id && r[i] in categories
    ensures forall i :: 0 <= i < |categories| && categories[i].id != deleting.id ==> categories[i] in r
  {
    Filter(categories, CategoryIsNot(deleting.id))
  }

  // ---------------------------------------------------------------------------------------
  // Grouping the choices by category and applying one batch update per group.

  function Target(choice: (Id, Id)): string {
    choice.1
  }

  /** What `Collections.GroupBy(choices, Target)` promises about `reassignmentsByCategory`. */
  ghost predicate GroupedBy(choices: Choices, order: seq<Id>, groups: map<Id, Choices>) {
    && groups.Keys == KeySet(choices, Target)
    && (forall k :: k in groups ==> groups[k] == Filter(choices, KeyIs(Target, k)))
    && (forall i, j :: 0 <= i < j < |order| ==> order[i] != order[j])
    && (forall k :: k in order <==> k in groups)
  }

  function ItemIds(group: Choices): (r: seq<Id>)
    ensures |r| == |group| && forall i :: 0 <= i < |group| ==> r[i] == group[i].0
  {
    seq(|group|, i requires 0 <= i < |group| => group[i].0)
  }

  /** The `(categoryId, itemIds)` pairs of `Object.entries(reassignmentsByCategory)`. */
  function Batches(order: seq<Id>, groups: map<Id, Choices>): (r: seq<(Id, seq<Id>)>)
    requires forall k :: k in order ==> k in groups
    ensures |r| == |order|
    ensures forall j :: 0 <= j < |order| ==> r[j] == (order[j], ItemIds(groups[order[j]]))
  {
    seq(|order|, j requires 0 <= j < |order| => (order[j], ItemIds(groups[order[j]])))
  }

  /** The items after the batches, one `updateItemsCategory` after another, all succeeded. */
  function Reassigned(items: seq<Item>, batches: seq<(Id, seq<Id>)>): (r: seq<Item>)
    ensures |r| == |items|
  {
    if batches == [] then items
    else
      var b := batches[|batches| - 1];
      Recategorized(Reassigned(items, batches[..|batches| - 1]), b.1, b.0)
  }

  /** The category of the last batch listing `itemId`. */
  function TargetOf(batches: seq<(Id, seq<Id>)>, itemId: Id): Option<Id> {
    if batches == [] then None
    else if itemId in batches[|batches| - 1].1 then Some(batches[|batches| - 1].0)
    else TargetOf(batches[..|batches| - 1], itemId)
  }

  /** After a run of batches, an item has the category of the last batch that listed it,
      and is otherwise untouched. */
  lemma {:induction false} ReassignedAt(items: seq<Item>, batches: seq<(Id, seq<Id>)>, i: int)
    requires 0 <= i < |items|
    ensures var t := TargetOf(batches, items[i].id);
            Reassigned(items, batches)[i] == if t.Some? then items[i].(categoryId := t.value) else items[i]
  {
    if batches != [] {
      var prefix := batches[..|batches| - 1];
      ReassignedAt(items, prefix, i);
      RecategorizedExactly(Reassigned(items, prefix), batches[|batches| - 1].1, batches[|batches| - 1].0, i);
    }
  }

  /** The batches never add or remove an item id. */
  lemma ReassignedKeepsIds(items: seq<Item>, batches: seq<(Id, seq<Id>)>, itemId: Id)
    ensures HasItem(Reassigned(items, batches), itemId) <==> HasItem(items, itemId)
  {
    forall i | 0 <= i < |items| ensures Reassigned(items, batches)[i].id == items[i].id {
      ReassignedAt(items, batches, i);
    }
  }

  /** An item id is in a category's batch exactly when that category is its choice. */
  lemma InBatch(choices: Choices, order: seq<Id>, groups: map<Id, Choices>, k: Id, itemId: Id)
    requires GroupedBy(choices, order, groups) && KeysUnique(choices) && k in groups
    ensures itemId in ItemIds(groups[k]) <==> Lookup(choices, itemId) == Some(k)
  {
    var g := groups[k];
    if itemId in ItemIds(g) {
      var m :| 0 <= m < |g| && ItemIds(g)[m] == itemId;
      assert g[m] in choices && KeyIs(Target, k)(g[m]);
      var i :| 0 <= i < |choices| && choices[i] == g[m];
      LookupEntry(choices, i);
    }
    if Lookup(choices, itemId) == Some(k) {
      var i :| 0 <= i < |choices| && choices[i] == (itemId, k);
      assert KeyIs(Target, k)(choices[i]);
      assert choices[i] in g;
      var m :| 0 <= m < |g| && g[m] == choices[i];
      assert ItemIds(g)[m] == itemId;
    }
  }

  /** `k` is one of the first `n` categories of `order`. */
  predicate AmongFirst(order: seq<Id>, n: int, k: Id) {
    exists m :: 0 <= m < n && m < |order| && order[m] == k
  }

  /** After the first batches, an item has been moved to its choice if that choice's batch
      has run, and is untouched otherwise. */
  lemma {:induction false} TargetOfPrefix(choices: Choices, order: seq<Id>, groups: map<Id, Choices>,
                                          b: seq<(Id, seq<Id>)>, itemId: Id)
    requires GroupedBy(choices, order, groups) && KeysUnique(choices) && |b| <= |order|
    requires forall j :: 0 <= j < |b| ==> b[j] == (order[j], ItemIds(groups[order[j]]))
    ensures var c := Lookup(choices, itemId);
            TargetOf(b, itemId) == if c.Some? && AmongFirst(order, |b|, c.value) then c else None
  {
    if b != [] {
      var n := |b| - 1;
      TargetOfPrefix(choices, order, groups, b[..n], itemId);
      InBatch(choices, order, groups, order[n], itemId);
      var c := Lookup(choices, itemId);
      if c.Some? && AmongFirst(order, n + 1, c.value) && c.value != order[n] {
        var m :| 0 <= m < n + 1 && m < |order| && order[m] == c.value;
        assert AmongFirst(order, n, c.value);
      }
      if c == Some(order[n]) {
        assert AmongFirst(order, n + 1, c.value);
      }
    }
  }

  /** Every item with a choice exists. */
  predicate ChoicesExist(items: seq<Item>, choices: Choices) {
    forall i :: 0 <= i < |choices| ==> HasItem(items, choices[i].0)
  }

  /** Every item is unchanged or moved to its choice. */
  predicate MovedOrKept(before: seq<Item>, after: seq<Item>, choices: Choices) {
    && |after| == |before|
    && forall i :: 0 <= i < |after| ==> after[i] == before[i] || after[i] == Moved(before[i], choices)
  }

  /** Every item is moved to its choice (an item without a choice keeps its category). */
  predicate AllMoved(before: seq<Item>, after: seq<Item>, choices: Choices) {
    && |after| == |before|
    && forall i :: 0 <= i < |after| ==> after[i] == Moved(before[i], choices)
  }

  /** Every chosen category has a batch, so after all of them every item with a choice is
      moved to it. */
  lemma AllBatchesMove(choices: Choices, order: seq<Id>, groups: map<Id, Choices>, items: seq<Item>)
    requires GroupedBy(choices, order, groups) && KeysUnique(choices)
    ensures AllMoved(items, Reassigned(items, Batches(order, groups)), choices)
  {
    var batches := Batches(order, groups);
    forall i | 0 <= i < |items| ensures Reassigned(items, batches)[i] == Moved(items[i], choices) {
      var c := Lookup(choices, items[i].id);
      TargetOfPrefix(choices, order, groups, batches, items[i].id);
      if c.Some? {
        assert Target((items[i].id, c.value)) == c.value;
        assert c.value in KeySet(choices, Target);
        var m :| 0 <= m < |order| && order[m] == c.value;
        assert AmongFirst(order, |order|, c.value);
      }
      ReassignedAt(items, batches, i);
    }
  }

  /** Part way through, every item is either untouched or already moved to its choice. */
  lemma SomeBatchesMove(choices: Choices, order: seq<Id>, groups: map<Id, Choices>, items: seq<Item>, j: nat)
    requires GroupedBy(choices, order, groups) && KeysUnique(choices) && j <= |order|
    ensures MovedOrKept(items, Reassigned(items, Batches(order, groups)[..j]), choices)
  {
    var prefix := Batches(order, groups)[..j];
    forall i | 0 <= i < |items|
      ensures Reassigned(items, prefix)[i] == items[i] || Reassigned(items, prefix)[i] == Moved(items[i], choices)
    {
      TargetOfPrefix(choices, order, groups, prefix, items[i].id);
      ReassignedAt(items, prefix, i);
    }
  }

  /** Each of the first `n` batches names existing items. */
  predicate FirstBatchesExist(items: seq<Item>, batches: seq<(Id, seq<Id>)>, n: nat)
    requires n <= |batches|
  {
    n == 0 || (FirstBatchesExist(items, batches, n - 1) && AllExist(items, batches[n - 1].1))
  }

  lemma {:induction false} FirstBatchesExistAll(items: seq<Item>, batches: seq<(Id, seq<Id>)>, n: nat)
    requires n <= |batches| && FirstBatchesExist(items, batches, n)
    ensures forall m :: 0 <= m < n ==> AllExist(items, batches[m].1)
  {
    if n > 0 {
      FirstBatchesExistAll(items, batches, n - 1);
    }
  }

  /** The next batch finds the same items as the first, and extends the run by one. */
  lemma BatchStep(items: seq<Item>, batches: seq<(Id, seq<Id>)>, j: nat)
    requires j < |batches|
    ensures var before := Reassigned(items, batches[..j]);
            && (AllExist(before, batches[j].1) <==> AllExist(items, batches[j].1))
            && Reassigned(items, batches[..j + 1]) == Recategorized(before, batches[j].1, batches[j].0)
  {
    forall m | 0 <= m < |batches[j].1| {
      ReassignedKeepsIds(items, batches[..j], batches[j].1[m]);
    }
    assert batches[..j + 1][..j] == batches[..j];
  }

  /** Every batch names existing items exactly when every chosen item exists. */
  lemma BatchesExist(choices: Choices, order: seq<Id>, groups: map<Id, Choices>, items: seq<Item>)
    requires GroupedBy(choices, order, groups) && KeysUnique(choices)
    ensures (forall j :: 0 <= j < |order| ==> AllExist(items, Batches(order, groups)[j].1))
            <==> ChoicesExist(items, choices)
  {
    var batches := Batches(order, groups);
    if forall j :: 0 <= j < |order| ==> AllExist(items, batches[j].1) {
      forall i | 0 <= i < |choices| ensures HasItem(items, choices[i].0) {
        var k := choices[i].1;
        assert Target(choices[i]) == k;
        assert k in KeySet(choices, Target);
        var j :| 0 <= j < |order| && order[j] == k;
        LookupEntry(choices, i);
        InBatch(choices, order, groups, k, choices[i].0);
        var m :| 0 <= m < |batches[j].1| && batches[j].1[m] == choices[i].0;
        assert AllExist(items, batches[j].1);
      }
    }
    if ChoicesExist(items, choices) {
      forall j | 0 <= j < |order| ensures AllExist(items, batches[j].1) {
        var g := groups[order[j]];
        forall m | 0 <= m < |g| ensures HasItem(items, ItemIds(g)[m]) {
          assert g[m] in choices;
        }
      }
    }
  }

  // ---------------------------------------------------------------------------------------

  /** `categories.find(c => c.id === id)`. */
  function FindCategory(categories: seq<Category>, id: Id): (r: Option<Category>)
    ensures r.Some? ==> r.value in categories && r.value.id == id
    ensures r.None? <==> forall i :: 0 <= i < |categories| ==> categories[i].id != id
  {
    if categories == [] then None
    else if categories[0].id == id then Some(categories[0])
    else FindCategory(categories[1..], id)
  }

  /** `categoryItemCounts[id] || 0`. */
  function ItemCountOf(itemCounts: map<Id, int>, id: Id): int {
    if id in itemCounts then itemCounts[id] else 0
  }

  /** The number of items in category `categoryId`. */
  function CountIn(items: seq<Item>, categoryId: Id): nat {
    if items == [] then 0
    else CountIn(items[..|items| - 1], categoryId) + (if items[|items| - 1].categoryId == categoryId then 1 else 0)
  }

  /** The number of items `getItems(categoryId)` returns: the category's items, or every item
      when the id is empty. */
  function CategorySize(items: seq<Item>, categoryId: Id): nat {
    if categoryId != [] then CountIn(items, categoryId) else |items|
  }

  lemma {:induction false} CountInIsFilter(items: seq<Item>, categoryId: Id)
    ensures CountIn(items, categoryId) == |Filter(items, InCategory(categoryId))|
  {
    if items != [] {
      var n := |items| - 1;
      CountInIsFilter(items[..n], categoryId);
      FilterSnoc(items[..n], items[n], InCategory(categoryId));
      assert items[..n] + [items[n]] == items;
    }
  }

  /** The number shown next to a category is the number of its items. */
  lemma ItemCountIsCategorySize(items: seq<Item>, categoryId: Id)
    ensures |GetItems(items, categoryId)| == CategorySize(items, categoryId)
  {
    CountInIsFilter(items, categoryId);
  }

  /** `itemCounts` holds, for each listed category, the size of that category. */
  predicate CountsLoaded(itemCounts: map<Id, int>, categories: seq<Category>, items: seq<Item>) {
    && (forall i :: 0 <= i < |categories| ==> categories[i].id in itemCounts)
    && (forall i :: 0 <= i < |categories| ==> itemCounts[categories[i].id] == CategorySize(items, categories[i].id))
    && (forall k :: k in itemCounts ==> HasCategory(categories, k))
  }

  /** The map `loadCategories` builds: one entry per category, written in list order. */
  function CountsOf(categories: seq<Category>, items: seq<Item>): map<Id, int> {
    if categories == [] then map[]
    else
      var last := categories[|categories| - 1];
      CountsOf(categories[..|categories| - 1], items)[last.id := CategorySize(items, last.id)]
  }

  lemma LoadStep(counts: map<Id, int>, categories: seq<Category>, i: nat, items: seq<Item>, n: int)
    requires i < |categories| && CountsLoaded(counts, categories[..i], items)
    requires n == CategorySize(items, categories[i].id)
    ensures CountsLoaded(counts[categories[i].id := n], categories[..i + 1], items)
  {
    var cats, counts' := categories[..i + 1], counts[categories[i].id := n];
    forall j | 0 <= j < i + 1 ensures cats[j].id in counts' && counts'[cats[j].id] == CategorySize(items, cats[j].id) {
      if j < i {
        assert cats[j] == categories[..i][j];
      }
    }
    forall k | k in counts' ensures HasCategory(cats, k) {
      if k == categories[i].id {
        assert cats[i].id == k;
      } else {
        var j :| 0 <= j < i && categories[..i][j].id == k;
        assert cats[j].id == k;
      }
    }
  }

  /** The loaded counts hold exactly the listed categories, each with its size. */
  lemma {:induction false} CountsOfLoaded(categories: seq<Category>, items: seq<Item>)
    ensures CountsLoaded(CountsOf(categories, items), categories, items)
  {
    if categories != [] {
      var n := |categories| - 1;
      CountsOfLoaded(categories[..n], items);
      LoadStep(CountsOf(categories[..n], items), categories, n, items, CategorySize(items, categories[n].id));
      assert categories[..n + 1] == categories;
    }
  }

  class CategoriesPageState {
    const db: Database
    var categories: seq<Category>
    var itemCounts: map<Id, int>
    var error: string
    var newCategoryName: string
    var showAddForm: bool
    var editingId: Option<Id>
    var editName: string
    var showReassignModal: bool
    var categoryToDelete: Option<Category>
    var itemsToReassign: seq<Item>
    var itemReassignments: Choices

    ghost predicate Valid()
      reads this, db
    {
      db.Valid() && KeysUnique(itemReassignments)
    }

    constructor (db: Database)
      requires db.Valid()
      ensures Valid() && this.db == db
      ensures categories == [] && itemCounts == map[] && error == [] && newCategoryName == []
      ensures !showAddForm && editingId.None? && editName == []
      ensures !showReassignModal && categoryToDelete.None? && itemsToReassign == [] && itemReassignments == []
    {
      this.db := db;
      categories, itemCounts, error, newCategoryName := [], map[], [], [];
      showAddForm, editingId, editName := false, None, [];
      showReassignModal, categoryToDelete, itemsToReassign, itemReassignments := false, None, [], [];
    }

    /** The reads of `loadCategories()`: the categories in name order, then each one's item count. */
    method FetchCategories() returns (cats: seq<Category>, counts: map<Id, int>)
      ensures cats == GetCategories(db.categories) && counts == CountsOf(cats, db.items)
      ensures forall i, j :: 0 <= i < j < |cats| ==> StringLe(cats[i].name, cats[j].name)
      ensures multiset(cats) == multiset(db.categories)
    {
      cats := GetCategories(db.categories);
      counts := map[];
      var i := 0;
      while i < |cats|
        invariant 0 <= i <= |cats|
        invariant counts == CountsOf(cats[..i], db.items)
      {
        var cat := cats[i];
        var items := GetItems(db.items, cat.id);
        ItemCountIsCategorySize(db.items, cat.id);
        assert cats[..i + 1][..i] == cats[..i];
        counts := counts[cat.id := |items|];
        i := i + 1;
      }
      assert cats[..i] == cats;
      GetCategoriesSortedByName(db.categories);
    }

    /** `loadCategories()`, run when the page opens and after every write. */
    method LoadCategories()
      modifies this`categories, this`itemCounts
      ensures categories == GetCategories(db.categories) && itemCounts == CountsOf(categories, db.items)
    {
      categories, itemCounts := FetchCategories();
    }

    /** `handleCreate()`: a name that is blank after trimming is refused without a write. */
    method HandleCreate(now: int, freshId: Id)
      requires Valid() && forall i :: 0 <= i < |db.categories| ==> db.categories[i].id != freshId
      modifies this`categories, this`itemCounts, this`error, this`newCategoryName, this`showAddForm, db`categories
      ensures Valid()
      ensures var blank := Trim(old(newCategoryName)) == [];
              blank ==> error == NameRequired && unchanged(db) && newCategoryName == old(newCategoryName)
      ensures var blank := Trim(old(newCategoryName)) == [];
              blank ==> showAddForm == old(showAddForm) && categories == old(categories) && itemCounts == old(itemCounts)
      ensures var blank := Trim(old(newCategoryName)) == [];
              !blank ==> db.categories == old(db.categories) + [Category(freshId, Trim(old(newCategoryName)), now)]
      ensures var blank := Trim(old(newCategoryName)) == [];
              !blank ==> error == [] && newCategoryName == [] && !showAddForm
      ensures var blank := Trim(old(newCategoryName)) == [];
              !blank ==> categories == GetCategories(db.categories) && itemCounts == CountsOf(categories, db.items)
    {
      var name := Trim(newCategoryName);
      if name == [] {
        error := NameRequired;
      } else {
        StripIdempotent(newCategoryName, IsJsSpace);
        SaveNew(name, now, freshId);
      }
    }

    /** `handleUpdate(id)`: a blank name is refused; renaming a missing category fails. */
    method HandleUpdate(id: Id)
      requires Valid()
      modifies this`categories, this`itemCounts, this`error, this`editingId, this`editName, db`categories
      ensures Valid()
      ensures var blank := Trim(old(editName)) == [];
              blank ==> error == NameRequired && unchanged(db) && editingId == old(editingId) && editName == old(editName)
      ensures var blank := Trim(old(editName)) == [];
              blank ==> categories == old(categories) && itemCounts == old(itemCounts)
      ensures var blank := Trim(old(editName)) == [];
              !blank ==> db.categories == Renamed(old(db.categories), id, Trim(old(editName)))
      ensures var renamed := Trim(old(editName)) != [] && HasCategory(old(db.categories), id);
              renamed ==> error == [] && editingId.None? && editName == []
      ensures var renamed := Trim(old(editName)) != [] && HasCategory(old(db.categories), id);
              renamed ==> categories == GetCategories(db.categories) && itemCounts == CountsOf(categories, db.items)
      ensures var failed := Trim(old(editName)) != [] && !HasCategory(old(db.categories), id);
              failed ==> error == UpdateFailed && editingId == old(editingId) && editName == old(editName)
      ensures var failed := Trim(old(editName)) != [] && !HasCategory(old(db.categories), id);
              failed ==> categories == old(categories) && itemCounts == old(itemCounts)
    {
      var name := Trim(editName);
      if name == [] {
        error := NameRequired;
      } else {
        StripIdempotent(editName, IsJsSpace);
        SaveEdit(id, name);
      }
    }

    /** `handleDelete(id, name)`: an unknown category is ignored; a category with items opens
        the reassignment dialog instead of being deleted; otherwise it is deleted once the
        user confirms. */
    method HandleDelete(id: Id, confirmed: bool)
      requires Valid()
      modifies this`categories, this`itemCounts, this`error, this`itemsToReassign, this`categoryToDelete,
               this`itemReassignments, this`showReassignModal, db`categories
      ensures Valid()
      ensures var category := FindCategory(old(categories), id);
              category.None? || (ItemCountOf(old(itemCounts), id) <= 0 && !confirmed) ==>
                unchanged(this) && unchanged(db)
      ensures var category := FindCategory(old(categories), id);
              category.Some? && ItemCountOf(old(itemCounts), id) > 0 ==>
                && showReassignModal && categoryToDelete == category && itemReassignments == []
                && itemsToReassign == GetItems(db.items, id)
      ensures var category := FindCategory(old(categories), id);
              category.Some? && ItemCountOf(old(itemCounts), id) > 0 ==>
                unchanged(db) && categories == old(categories) && itemCounts == old(itemCounts) && error == old(error)
      ensures var category := FindCategory(old(categories), id);
              category.Some? && ItemCountOf(old(itemCounts), id) <= 0 && confirmed ==>
                && db.categories == WithoutCategory(old(db.categories), id)
                && categories == GetCategories(db.categories) && itemCounts == CountsOf(categories, db.items)
      ensures var category := FindCategory(old(categories), id);
              category.Some? && ItemCountOf(old(itemCounts), id) <= 0 && confirmed ==>
                && error == [] && showReassignModal == old(showReassignModal)
                && categoryToDelete == old(categoryToDelete) && itemsToReassign == old(itemsToReassign)
    {
      var itemCount := ItemCountOf(itemCounts, id);
      var category := FindCategory(categories, id);
      if category.Some? {
        if itemCount > 0 {
          OpenReassignDialog(category.value);
        } else if confirmed {
          error := [];
          DeleteAndReload(id);
        }
      }
    }

    /** The branch of `handleDelete` for a category that still has items: its items are
        loaded and the reassignment dialog opens with no choices made. */
    method OpenReassignDialog(category: Category)
      modifies this`itemsToReassign, this`categoryToDelete, this`itemReassignments, this`showReassignModal
      ensures showReassignModal && categoryToDelete == Some(category) && itemReassignments == []
      ensures itemsToReassign == GetItems(db.items, category.id)
    {
      itemsToReassign, categoryToDelete, itemReassignments, showReassignModal :=
        GetItems(db.items, category.id), Some(category), [], true;
    }

    /** `await createCategory(name); setNewCategoryName(''); setShowAddForm(false); await
        loadCategories();` */
    method SaveNew(name: string, now: int, freshId: Id)
      requires db.Valid() && forall i :: 0 <= i < |db.categories| ==> db.categories[i].id != freshId
      modifies this`categories, this`itemCounts, this`error, this`newCategoryName, this`showAddForm, db`categories
      ensures db.Valid()
      ensures db.categories == old(db.categories) + [Category(freshId, Trim(name), now)]
      ensures error == [] && newCategoryName == [] && !showAddForm
      ensures categories == GetCategories(db.categories) && itemCounts == CountsOf(categories, db.items)
    {
      var _ := db.CreateCategory(name, now, freshId);
      categories, itemCounts := FetchCategories();
      error, newCategoryName, showAddForm := [], [], false;
    }

    /** `await updateCategory(id, name); setEditingId(null); setEditName(''); await
        loadCategories();` -- a failed update leaves the form open and shows the error. */
    method SaveEdit(id: Id, name: string)
      requires db.Valid()
      modifies this`categories, this`itemCounts, this`error, this`editingId, this`editName, db`categories
      ensures db.Valid()
      ensures db.categories == Renamed(old(db.categories), id, Trim(name))
      ensures HasCategory(old(db.categories), id) ==> error == [] && editingId.None? && editName == []
      ensures HasCategory(old(db.categories), id) ==> categories == GetCategories(db.categories) && itemCounts == CountsOf(categories, db.items)
      ensures !HasCategory(old(db.categories), id) ==> error == UpdateFailed && editingId == old(editingId) && editName == old(editName)
      ensures !HasCategory(old(db.categories), id) ==> categories == old(categories) && itemCounts == old(itemCounts)
    {
      var ok := db.UpdateCategory(id, name);
      if ok {
        categories, itemCounts := FetchCategories();
        error, editingId, editName := [], None, [];
      } else {
        error := UpdateFailed;
      }
    }

    /** `await deleteCategory(id); await loadCategories();` */
    method DeleteAndReload(id: Id)
      requires db.Valid()
      modifies this`categories, this`itemCounts, db`categories
      ensures db.Valid()
      ensures db.categories == WithoutCategory(old(db.categories), id)
      ensures categories == GetCategories(db.categories) && itemCounts == CountsOf(categories, db.items)
    {
      db.DeleteCategory(id);
      categories, itemCounts := FetchCategories();
    }

    /** The drop-down of one item in the dialog: `itemReassignments[itemId] = categoryId`. */
    method ChooseCategory(itemId: Id, categoryId: Id)
      requires Valid()
      modifies this`itemReassignments
      ensures Valid()
      ensures itemReassignments == SetChoice(old(itemReassignments), itemId, categoryId)
    {
      SetChoiceUnique(itemReassignments, itemId, categoryId);
      itemReassignments := SetChoice(itemReassignments, itemId, categoryId);
    }

    /** The batch updates of `handleReassignAndDelete`, one per chosen category, in order; the
        first failing batch stops the run. */
    method MoveChosenItems(choices: Choices) returns (ok: bool)
      requires db.Valid() && KeysUnique(choices)
      modifies db`items
      ensures db.Valid()
      ensures ok <==> ChoicesExist(old(db.items), choices)
      ensures MovedOrKept(old(db.items), db.items, choices)
      ensures ok ==> AllMoved(old(db.items), db.items, choices)
    {
      var order, groups := GroupBy(choices, Target);
      var batches := Batches(order, groups);
      BatchesExist(choices, order, groups, old(db.items));
      var done;
      ok, done := RunBatches(batches);
      SomeBatchesMove(choices, order, groups, old(db.items), done);
      if ok {
        assert batches[..done] == batches;
        AllBatchesMove(choices, order, groups, old(db.items));
      }
    }

    /** The `for` loop over the batches: one `updateItemsCategory` each, in order, stopping
        at the first batch that fails. */
    method RunBatches(batches: seq<(Id, seq<Id>)>) returns (ok: bool, done: nat)
      requires db.Valid()
      modifies db`items
      ensures db.Valid()
      ensures done <= |batches| && db.items == Reassigned(old(db.items), batches[..done])
      ensures ok <==> forall m :: 0 <= m < |batches| ==> AllExist(old(db.items), batches[m].1)
      ensures ok ==> done == |batches|
    {
      ok, done := true, 0;
      while done < |batches| && ok
        invariant 0 <= done <= |batches| && db.Valid()
        invariant db.items == Reassigned(old(db.items), batches[..done])
        invariant FirstBatchesExist(old(db.items), batches, done)
        invariant !ok ==> done < |batches| && !AllExist(old(db.items), batches[done].1)
        decreases |batches| - done, ok
      {
        BatchStep(old(db.items), batches, done);
        ok := db.UpdateItemsCategory(batches[done].1, batches[done].0);
        if ok {
          assert AllExist(old(db.items), batches[done].1);
          assert FirstBatchesExist(old(db.items), batches, done + 1);
          done := done + 1;
        }
      }
      if ok {
        FirstBatchesExistAll(old(db.items), batches, done);
      }
    }

    /** `handleReassignAndDelete()`: refused while any item lacks a category; otherwise the
        items are moved and, only if every batch succeeded, the category is deleted. */
    method HandleReassignAndDelete() returns (deleted: bool)
      requires Valid()
      modifies this`categories, this`itemCounts, this`error, this`itemsToReassign, this`categoryToDelete,
               this`itemReassignments, this`showReassignModal, db`items, db`categories
      ensures Valid()
      ensures old(categoryToDelete).None? ==> !deleted && unchanged(this) && unchanged(db)
      ensures var unassigned := Filter(old(itemsToReassign), Unchosen(old(itemReassignments)));
              old(categoryToDelete).Some? && unassigned != [] ==>
                && !deleted && error == PleaseAssign(|unassigned|) && unchanged(db)
                && categoryToDelete == old(categoryToDelete) && itemReassignments == old(itemReassignments)
                && showReassignModal == old(showReassignModal) && categories == old(categories)
      ensures var ready := old(categoryToDelete).Some? && Filter(old(itemsToReassign), Unchosen(old(itemReassignments))) == [];
              ready ==> (deleted <==> ChoicesExist(old(db.items), old(itemReassignments)))
      ensures MovedOrKept(old(db.items), db.items, old(itemReassignments))
      ensures deleted ==> AllMoved(old(db.items), db.items, old(itemReassignments))
      ensures deleted ==> db.categories == WithoutCategory(old(db.categories), old(categoryToDelete).value.id)
      ensures deleted ==> error == [] && !showReassignModal && categoryToDelete.None? && itemsToReassign == []
      ensures deleted ==> itemReassignments == [] && categories == GetCategories(db.categories)
      ensures deleted ==> itemCounts == CountsOf(categories, db.items)
      ensures !deleted ==> db.categories == old(db.categories)
      ensures var ready := old(categoryToDelete).Some? && Filter(old(itemsToReassign), Unchosen(old(itemReassignments))) == [];
              ready && !deleted ==> error == ReassignFailed && categoryToDelete == old(categoryToDelete)
    {
      if categoryToDelete.None? {
        deleted := false;
      } else {
        var unassigned := Filter(itemsToReassign, Unchosen(itemReassignments));
        if |unassigned| > 0 {
          error := PleaseAssign(|unassigned|);
          deleted := false;
        } else {
          deleted := ReassignAndDelete();
        }
      }
    }

    /** The `try` block of `handleReassignAndDelete`, run once every item has a choice. */
    method ReassignAndDelete() returns (deleted: bool)
      requires Valid() && categoryToDelete.Some?
      modifies this`categories, this`itemCounts, this`error, this`itemsToReassign, this`categoryToDelete,
               this`itemReassignments, this`showReassignModal, db`items, db`categories
      ensures Valid()
      ensures deleted <==> ChoicesExist(old(db.items), old(itemReassignments))
      ensures MovedOrKept(old(db.items), db.items, old(itemReassignments))
      ensures deleted ==> AllMoved(old(db.items), db.items, old(itemReassignments))
      ensures deleted ==> db.categories == WithoutCategory(old(db.categories), old(categoryToDelete).value.id)
      ensures deleted ==> error == [] && !showReassignModal && categoryToDelete.None? && itemsToReassign == []
      ensures deleted ==> itemReassignments == [] && categories == GetCategories(db.categories)
      ensures deleted ==> itemCounts == CountsOf(categories, db.items)
      ensures !deleted ==> db.categories == old(db.categories) && error == ReassignFailed
      ensures !deleted ==> categoryToDelete == old(categoryToDelete)
    {
      deleted := MoveChosenItems(itemReassignments);
      if !deleted {
        error := ReassignFailed;
      } else {
        FinishDeletion(categoryToDelete.value.id);
      }
    }

    /** The end of the `try` block once every batch succeeded: the category is deleted, the
        dialog is closed and cleared, and the page reloads. */
    method FinishDeletion(id: Id)
      requires db.Valid()
      modifies this`categories, this`itemCounts, this`error, this`itemsToReassign, this`categoryToDelete,
               this`itemReassignments, this`showReassignModal, db`categories
      ensures db.Valid()
      ensures db.categories == WithoutCategory(old(db.categories), id)
      ensures error == [] && !showReassignModal && categoryToDelete.None? && itemsToReassign == []
      ensures itemReassignments == [] && categories == GetCategories(db.categories)
      ensures itemCounts == CountsOf(categories, db.items)
    {
      db.DeleteCategory(id);
      error, showReassignModal, categoryToDelete, itemsToReassign, itemReassignments := [], false, None, [], [];
      LoadCategories();
    }
  }
}
