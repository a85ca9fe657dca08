/** The database layer of the web app: its tables held in memory, in document order, and
    the write operations the pages call. Each write is a method on `Database`; the table
    it produces is given by a function of the old table, and the promises of the write are
    lemmas about those functions. Document ids for new records and the current time are
    supplied by the caller. A write to a missing document (`updateDoc`, a batch update)
    fails and changes nothing. */
module Store {
  import opened Wrappers
  import opened Model
  import opened Text
  import opened Collections
  import opened Sorting
  import Terms

  // ---------------------------------------------------------------------------------------
  // Historical counts

  predicate IsCountFor(c: HistoricalCount, itemId: Id, academicTermId: Id) {
    c.itemId == itemId && c.academicTermId == academicTermId
  }

  /** The first document of `where('itemId', '==', itemId).where('academicTermId', '==', academicTermId)`. */
  function FirstCountFor(counts: seq<HistoricalCount>, itemId: Id, academicTermId: Id): (r: Option<nat>)
    ensures r.Some? ==> r.value < |counts| && IsCountFor(counts[r.value], itemId, academicTermId)
    ensures r.Some? ==> forall j :: 0 <= j < r.value ==> !IsCountFor(counts[j], itemId, academicTermId)
    ensures r.None? ==> forall j :: 0 <= j < |counts| ==> !IsCountFor(counts[j], itemId, academicTermId)
  {
    if counts == [] then None
    else if IsCountFor(counts[0], itemId, academicTermId) then Some(0)
    else match FirstCountFor(counts[1..], itemId, academicTermId)
      case Some(k) => Some(k + 1)
      case None => None
  }

  /** The existing record after the update: quantity and import time replaced, the session
      and the counter replaced only when the new values are non-empty. */
  function UpdatedCount(c: HistoricalCount, countedQuantity: int, sessionId: Option<Id>,
                        countedByUid: Option<Id>, now: int): HistoricalCount
  {
    c.(countedQuantity := countedQuantity, importedAt := Some(now),
       sessionId := if Truthy(sessionId) then sessionId else c.sessionId,
       countedByUid := if Truthy(countedByUid) then countedByUid else c.countedByUid)
  }

  /** The record added when none exists: session and counter only when non-empty. */
  function NewCount(id: Id, itemId: Id, academicTermId: Id, countedQuantity: int, sessionId: Option<Id>,
                    countedByUid: Option<Id>, now: int): HistoricalCount
  {
    HistoricalCount(id, itemId, academicTermId, countedQuantity, Some(now), OrNull(sessionId), OrNull(countedByUid))
  }

  /** The table after `createOrUpdateHistoricalCount`. */
  function UpsertCount(counts: seq<HistoricalCount>, itemId: Id, academicTermId: Id, countedQuantity: int,
                       sessionId: Option<Id>, countedByUid: Option<Id>, now: int, freshId: Id): seq<HistoricalCount>
  {
    match FirstCountFor(counts, itemId, academicTermId)
    case Some(k) => counts[k := UpdatedCount(counts[k], countedQuantity, sessionId, countedByUid, now)]
    case None => counts + [NewCount(freshId, itemId, academicTermId, countedQuantity, sessionId, countedByUid, now)]
  }

  /** After the upsert exactly one position holds the new quantity for the pair: the first
      existing record for it, updated in place with nothing added, or one record appended.
      Every other record is unchanged. */
  lemma UpsertWritesOneRecord(counts: seq<HistoricalCount>, itemId: Id, academicTermId: Id, countedQuantity: int,
                              sessionId: Option<Id>, countedByUid: Option<Id>, now: int, freshId: Id)
    ensures var r := UpsertCount(counts, itemId, academicTermId, countedQuantity, sessionId, countedByUid, now, freshId);
            var found := exists j :: 0 <= j < |counts| && IsCountFor(counts[j], itemId, academicTermId);
            && |r| == |counts| + (if found then 0 else 1)
            && exists k :: 0 <= k < |r| && IsCountFor(r[k], itemId, academicTermId)
                 && r[k].countedQuantity == countedQuantity && r[k].importedAt == Some(now)
                 && (forall j :: 0 <= j < |counts| && j != k ==> r[j] == counts[j])
                 && (forall j :: 0 <= j < k ==> !IsCountFor(r[j], itemId, academicTermId))
  {
    var r := UpsertCount(counts, itemId, academicTermId, countedQuantity, sessionId, countedByUid, now, freshId);
    match FirstCountFor(counts, itemId, academicTermId)
    case Some(k) =>
      assert IsCountFor(r[k], itemId, academicTermId);
    case None =>
      assert IsCountFor(r[|counts|], itemId, academicTermId);
  }

  /** The session and the counter are written only when given (non-empty): an update that
      brings none keeps the stored ones, and a new record without them has none. */
  lemma UpsertKeepsOptionalFields(counts: seq<HistoricalCount>, itemId: Id, academicTermId: Id, countedQuantity: int,
                                  sessionId: Option<Id>, countedByUid: Option<Id>, now: int, freshId: Id, k: nat)
    ensures var r := UpsertCount(counts, itemId, academicTermId, countedQuantity, sessionId, countedByUid, now, freshId);
            FirstCountFor(counts, itemId, academicTermId) == Some(k) ==>
              && (!Truthy(sessionId) ==> r[k].sessionId == counts[k].sessionId)
              && (!Truthy(countedByUid) ==> r[k].countedByUid == counts[k].countedByUid)
              && (Truthy(sessionId) ==> r[k].sessionId == sessionId)
              && (Truthy(countedByUid) ==> r[k].countedByUid == countedByUid)
    ensures var r := UpsertCount(counts, itemId, academicTermId, countedQuantity, sessionId, countedByUid, now, freshId);
            FirstCountFor(counts, itemId, academicTermId).None? ==>
              && |r| == |counts| + 1
              && (r[|counts|].sessionId.Some? <==> Truthy(sessionId))
              && (r[|counts|].countedByUid.Some? <==> Truthy(countedByUid))
              && (Truthy(sessionId) ==> r[|counts|].sessionId == sessionId)
              && (Truthy(countedByUid) ==> r[|counts|].countedByUid == countedByUid)
  {
  }

  /** At most one record per (item, term): the unique constraint of the schema. */
  ghost predicate PairsUnique(counts: seq<HistoricalCount>) {
    forall i, j :: 0 <= i < j < |counts| ==>
      !(counts[i].itemId == counts[j].itemId && counts[i].academicTermId == counts[j].academicTermId)
  }

  /** The upsert keeps at most one record per (item, term). */
  lemma UpsertKeepsPairsUnique(counts: seq<HistoricalCount>, itemId: Id, academicTermId: Id, countedQuantity: int,
                               sessionId: Option<Id>, countedByUid: Option<Id>, now: int, freshId: Id)
    requires PairsUnique(counts)
    ensures PairsUnique(UpsertCount(counts, itemId, academicTermId, countedQuantity, sessionId, countedByUid, now, freshId))
  {
  }

  /** Repeating the upsert for the same (item, term) adds nothing the second time, whatever
      the other arguments. */
  lemma UpsertRepeatAddsNothing(counts: seq<HistoricalCount>, itemId: Id, academicTermId: Id,
                                q1: int, s1: Option<Id>, u1: Option<Id>, t1: int, id1: Id,
                                q2: int, s2: Option<Id>, u2: Option<Id>, t2: int, id2: Id)
    ensures var once := UpsertCount(counts, itemId, academicTermId, q1, s1, u1, t1, id1);
            var twice := UpsertCount(once, itemId, academicTermId, q2, s2, u2, t2, id2);
            |twice| == |once|
  {
    var once := UpsertCount(counts, itemId, academicTermId, q1, s1, u1, t1, id1);
    UpsertWritesOneRecord(counts, itemId, academicTermId, q1, s1, u1, t1, id1);
    var k :| 0 <= k < |once| && IsCountFor(once[k], itemId, academicTermId);
  }

  // ---------------------------------------------------------------------------------------
  // Academic terms

  /** The first term document with this (term, year). */
  function FirstTermByCode(terms: seq<AcademicTerm>, term: TermType, year: int): (r: Option<nat>)
    ensures r.Some? ==> r.value < |terms| && terms[r.value].term == term && terms[r.value].year == year
    ensures r.Some? ==> forall j :: 0 <= j < r.value ==> !(terms[j].term == term && terms[j].year == year)
    ensures r.None? ==> forall j :: 0 <= j < |terms| ==> !(terms[j].term == term && terms[j].year == year)
  {
    if terms == [] then None
    else if terms[0].term == term && terms[0].year == year then Some(0)
    else match FirstTermByCode(terms[1..], term, year)
      case Some(k) => Some(k + 1)
      case None => None
  }

  /** At most one term per (term, year): the unique constraint of the schema. */
  ghost predicate CodesUnique(terms: seq<AcademicTerm>) {
    forall i, j :: 0 <= i < j < |terms| ==> !(terms[i].term == terms[j].term && terms[i].year == terms[j].year)
  }

  // ---------------------------------------------------------------------------------------
  // Users

  /** The user document after a login: a new user gets both flags false; an existing user
      gets only email, display name, photo and login time rewritten. */
  function LoginRecord(users: map<Id, User>, uid: Id, email: string, displayName: Option<string>,
                       photoURL: Option<string>, now: int): (u: User)
    ensures u.email == email && u.lastLoginAt == now
    ensures u.displayName == OrNull(displayName) && u.photoURL == OrNull(photoURL)
    ensures uid !in users ==> u.id == uid && u.createdAt == now && u.isAdmin == Some(false) && u.isAuthorized == Some(false)
    ensures uid in users ==> u.id == users[uid].id && u.createdAt == users[uid].createdAt
                             && u.isAdmin == users[uid].isAdmin && u.isAuthorized == users[uid].isAuthorized
  {
    if uid in users then
      users[uid].(email := email, displayName := OrNull(displayName), photoURL := OrNull(photoURL), lastLoginAt := now)
    else
      User(uid, email, OrNull(displayName), OrNull(photoURL), now, now, Some(false), Some(false))
  }

  /** A login never grants or withdraws access: the user's authorisation is what it was, or
      false for a user seen for the first time. */
  lemma LoginKeepsAccess(users: map<Id, User>, uid: Id, email: string, displayName: Option<string>,
                         photoURL: Option<string>, now: int)
    ensures FlagOn(LoginRecord(users, uid, email, displayName, photoURL, now).isAuthorized)
            == (uid in users && FlagOn(users[uid].isAuthorized))
  {
  }

  // ---------------------------------------------------------------------------------------
  // Items

  /** The items after `updateItemsCategory(itemIds, newCategoryId)` succeeds. */
  function Recategorized(items: seq<Item>, itemIds: seq<Id>, newCategoryId: Id): (r: seq<Item>)
    ensures |r| == |items|
  {
    seq(|items|, i requires 0 <= i < |items| =>
      if items[i].id in itemIds then items[i].(categoryId := newCategoryId) else items[i])
  }

  /** Every listed item ends in the new category; every other item, and every other field,
      is unchanged. */
  lemma RecategorizedExactly(items: seq<Item>, itemIds: seq<Id>, newCategoryId: Id, i: int)
    requires 0 <= i < |items|
    ensures var r := Recategorized(items, itemIds, newCategoryId);
            && r[i].id == items[i].id && r[i].name == items[i].name
            && r[i].location == items[i].location && r[i].condition == items[i].condition
            && r[i].serialFrequency == items[i].serialFrequency && r[i].createdAt == items[i].createdAt
            && (items[i].id in itemIds ==> r[i].categoryId == newCategoryId)
            && (items[i].id !in itemIds ==> r[i] == items[i])
  {
  }

  predicate HasItem(items: seq<Item>, id: Id) {
    exists i :: 0 <= i < |items| && items[i].id == id
  }

  /** Every listed id names an item. */
  predicate AllExist(items: seq<Item>, itemIds: seq<Id>) {
    forall m :: 0 <= m < |itemIds| ==> HasItem(items, itemIds[m])
  }

  function CategoryNameLe(a: Category, b: Category): bool {
    StringLe(a.name, b.name)
  }

  /** `getCategories()`: the whole table under `orderBy('name')`. */
  function GetCategories(categories: seq<Category>): (r: seq<Category>)
    ensures |r| == |categories|
  {
    Sort(categories, CategoryNameLe)
  }

  /** `getCategories` returns exactly the categories, ordered by name. */
  lemma GetCategoriesSortedByName(categories: seq<Category>)
    ensures var r := GetCategories(categories);
            && (forall i, j :: 0 <= i < j < |r| ==> StringLe(r[i].name, r[j].name))
            && multiset(r) == multiset(categories)
  {
    forall a, b | a in categories && b in categories ensures CategoryNameLe(a, b) || CategoryNameLe(b, a) {
      StringLeTotal(a.name, b.name);
    }
    forall a, b, c | a in categories && b in categories && c in categories && CategoryNameLe(a, b) && CategoryNameLe(b, c)
      ensures CategoryNameLe(a, c)
    {
      StringLeTrans(a.name, b.name, c.name);
    }
    SortSorted(categories, CategoryNameLe);
  }

  function ItemNameLe(a: Item, b: Item): bool {
    StringLe(a.name, b.name)
  }

  function InCategory(categoryId: Id): Item -> bool {
    (item: Item) => item.categoryId == categoryId
  }

  /** `getItems(categoryId)`: the items of the category when one is given, otherwise all, sorted by name. */
  function GetItems(items: seq<Item>, categoryId: Id): (r: seq<Item>)
    ensures |r| == |if categoryId != [] then Filter(items, InCategory(categoryId)) else items|
  {
    var chosen := if categoryId != [] then Filter(items, InCategory(categoryId)) else items;
    Sort(chosen, ItemNameLe)
  }

  /** `getItems` returns exactly the category's items (all items for an empty id), ordered by name. */
  lemma GetItemsSortedByName(items: seq<Item>, categoryId: Id)
    ensures var r := GetItems(items, categoryId);
            && (forall i, j :: 0 <= i < j < |r| ==> StringLe(r[i].name, r[j].name))
            && (categoryId != [] ==> multiset(r) == multiset(Filter(items, InCategory(categoryId))))
            && (categoryId == [] ==> multiset(r) == multiset(items))
  {
    var chosen := if categoryId != [] then Filter(items, InCategory(categoryId)) else items;
    ItemNameLePreorder(chosen);
    SortSorted(chosen, ItemNameLe);
  }

  lemma ItemNameLePreorder(xs: seq<Item>)
    ensures TotalPreorderOn(xs, ItemNameLe)
  {
    forall a, b | a in xs && b in xs ensures ItemNameLe(a, b) || ItemNameLe(b, a) {
      StringLeTotal(a.name, b.name);
    }
    forall a, b, c | a in xs && b in xs && c in xs && ItemNameLe(a, b) && ItemNameLe(b, c)
      ensures ItemNameLe(a, c)
    {
      StringLeTrans(a.name, b.name, c.name);
    }
  }

  // ---------------------------------------------------------------------------------------
  // Writing an item: the client SDK refuses `undefined` field values

  /** A field of the object handed to `addDoc`: not there at all, present with the value
      `undefined`, or holding a string. */
  datatype Field = Omitted | Undefined | Given(text: string)

  /** The item object handed to `createItem`, before the store adds `createdAt`. */
  datatype ItemData = ItemData(name: string, categoryId: Id, location: Field, condition: Field,
                               serialFrequency: Field)

  const UnsupportedUndefined := "Unsupported field value: undefined"

  predicate HasUndefined(data: ItemData) {
    data.location.Undefined? || data.condition.Undefined? || data.serialFrequency.Undefined?
  }

  /** The field as the stored document holds it. */
  function StoredField(f: Field): (r: Option<string>)
    requires !f.Undefined?
    ensures r.Some? <==> f.Given?
    ensures r.Some? ==> r.value == f.text
  {
    if f.Given? then Some(f.text) else None
  }

  /** The document `addDoc` stores for `data`, or nothing when the client SDK refuses it. */
  function WrittenItem(data: ItemData, now: int, freshId: Id): (r: Option<Item>)
    ensures r.None? <==> HasUndefined(data)
    ensures r.Some? ==> r.value.id == freshId && r.value.createdAt == now
                        && r.value.name == data.name && r.value.categoryId == data.categoryId
    ensures r.Some? ==> (r.value.location.Some? <==> data.location.Given?)
                        && (r.value.condition.Some? <==> data.condition.Given?)
                        && (r.value.serialFrequency.Some? <==> data.serialFrequency.Given?)
    ensures r.Some? ==> (data.location.Given? ==> r.value.location.value == data.location.text)
                        && (data.condition.Given? ==> r.value.condition.value == data.condition.text)
                        && (data.serialFrequency.Given? ==> r.value.serialFrequency.value == data.serialFrequency.text)
  {
    if HasUndefined(data) then None
    else Some(Item(freshId, data.name, data.categoryId, StoredField(data.location), StoredField(data.condition),
                   StoredField(data.serialFrequency), now))
  }

  // ---------------------------------------------------------------------------------------
  // Reading historical counts

  /** Whether a count passes the `where` clauses of `getHistoricalCounts(itemId, academicTermId)`:
      each clause is added only when its argument is given (a non-empty string). */
  predicate CountSelected(c: HistoricalCount, itemId: Id, academicTermId: Id) {
    (itemId == [] || c.itemId == itemId) && (academicTermId == [] || c.academicTermId == academicTermId)
  }

  /** A stored count as the read returns it: `importedAt: doc.data().importedAt || Timestamp.now()`. */
  function AsRead(c: HistoricalCount, now: int): HistoricalCount {
    c.(importedAt := Some(c.importedAt.GetOr(now)))
  }

  /** `getHistoricalCounts(itemId?, academicTermId?)` at time `now`, in document order. */
  function GetHistoricalCounts(counts: seq<HistoricalCount>, itemId: Id, academicTermId: Id, now: int): (r: seq<HistoricalCount>)
    ensures |r| <= |counts|
  {
    if counts == [] then []
    else
      var c := counts[|counts| - 1];
      GetHistoricalCounts(counts[..|counts| - 1], itemId, academicTermId, now)
        + (if CountSelected(c, itemId, academicTermId) then [AsRead(c, now)] else [])
  }

  /** Every stored count as the read would return it, in document order. */
  function Stamped(counts: seq<HistoricalCount>, now: int): (r: seq<HistoricalCount>)
    ensures |r| == |counts|
    ensures forall j :: 0 <= j < |counts| ==> r[j] == AsRead(counts[j], now)
  {
    seq(|counts|, j requires 0 <= j < |counts| => AsRead(counts[j], now))
  }

  /** Every count the read returns passes the query and has an import time. */
  lemma {:induction false} GetHistoricalCountsSelected(counts: seq<HistoricalCount>, itemId: Id, academicTermId: Id, now: int)
    ensures forall i :: 0 <= i < |GetHistoricalCounts(counts, itemId, academicTermId, now)| ==>
              GetHistoricalCounts(counts, itemId, academicTermId, now)[i].importedAt.Some? &&
              CountSelected(GetHistoricalCounts(counts, itemId, academicTermId, now)[i], itemId, academicTermId)
    decreases |counts|
  {
    if counts != [] {
      var n := |counts| - 1;
      GetHistoricalCountsSelected(counts[..n], itemId, academicTermId, now);
      var rf := GetHistoricalCounts(counts[..n], itemId, academicTermId, now);
      var r := GetHistoricalCounts(counts, itemId, academicTermId, now);
      assert forall i :: 0 <= i < |rf| ==> r[i] == rf[i];
    }
  }

  /** Every count the read returns is a stored count with its import time filled in (the
      stored one when there is one, `now` otherwise) and every other field as stored. */
  lemma {:induction false} GetHistoricalCountsFromStore(counts: seq<HistoricalCount>, itemId: Id, academicTermId: Id, now: int)
    ensures forall i :: 0 <= i < |GetHistoricalCounts(counts, itemId, academicTermId, now)| ==>
              GetHistoricalCounts(counts, itemId, academicTermId, now)[i] in Stamped(counts, now)
    decreases |counts|
  {
    if counts != [] {
      var n := |counts| - 1;
      var front := counts[..n];
      GetHistoricalCountsFromStore(front, itemId, academicTermId, now);
      var sf, s := Stamped(front, now), Stamped(counts, now);
      assert s == sf + [AsRead(counts[n], now)];
    }
  }

  /** Every stored count that passes the query is returned. */
  lemma {:induction false} GetHistoricalCountsComplete(counts: seq<HistoricalCount>, itemId: Id, academicTermId: Id, now: int)
    ensures forall j :: 0 <= j < |counts| && CountSelected(counts[j], itemId, academicTermId) ==>
              AsRead(counts[j], now) in GetHistoricalCounts(counts, itemId, academicTermId, now)
    decreases |counts|
  {
    if counts != [] {
      var n := |counts| - 1;
      var front := counts[..n];
      GetHistoricalCountsComplete(front, itemId, academicTermId, now);
      forall j | 0 <= j < n
        ensures counts[j] == front[j]
      {
      }
    }
  }

  // ---------------------------------------------------------------------------------------
  // Sessions

  function NotFromSession(sessionId: Id): HistoricalCount -> bool {
    (c: HistoricalCount) => c.sessionId != Some(sessionId)
  }

  function FindSession(sessions: seq<InventorySession>, id: Id): (r: Option<InventorySession>)
    ensures r.Some? ==> r.value in sessions && r.value.id == id
    ensures r.None? ==> forall i :: 0 <= i < |sessions| ==> sessions[i].id != id
  {
    if sessions == [] then None
    else if sessions[0].id == id then Some(sessions[0])
    else FindSession(sessions[1..], id)
  }

  const SessionError := "Session not found or has no academic term"

  // ---------------------------------------------------------------------------------------

  predicate HasCategory(categories: seq<Category>, id: Id) {
    exists i :: 0 <= i < |categories| && categories[i].id == id
  }

  /** The table after every category with id `id` is renamed to `name`. */
  function Renamed(categories: seq<Category>, id: Id, name: string): seq<Category> {
    if categories == [] then []
    else
      var last := categories[|categories| - 1];
      Renamed(categories[..|categories| - 1], id, name) + [if last.id == id then last.(name := name) else last]
  }

  /** Renaming keeps the table's length and order, renames every category with id `id` and
      leaves every other one alone. */
  lemma {:induction false} RenamedExactly(categories: seq<Category>, id: Id, name: string)
    ensures var r := Renamed(categories, id, name);
            && |r| == |categories|
            && forall i :: 0 <= i < |r| ==>
                 r[i] == if categories[i].id == id then categories[i].(name := name) else categories[i]
  {
    if categories != [] {
      RenamedExactly(categories[..|categories| - 1], id, name);
    }
  }

  function CategoryId(c: Category): Id { c.id }
  function TermId(t: AcademicTerm): Id { t.id }
  function ItemId(i: Item): Id { i.id }
  function SessionId(s: InventorySession): Id { s.id }
  function CountId(c: HistoricalCount): Id { c.id }

  function SessionIsNot(id: Id): InventorySession -> bool {
    (s: InventorySession) => s.id != id
  }

  function CategoryIsNot(id: Id): Category -> bool {
    (c: Category) => c.id != id
  }

  /** The category table once the document `id` is deleted: every other category, in order. */
  function WithoutCategory(categories: seq<Category>, id: Id): seq<Category> {
    if categories == [] then []
    else
      var last := categories[|categories| - 1];
      WithoutCategory(categories[..|categories| - 1], id) + (if last.id != id then [last] else [])
  }

  /** Deleting a category keeps exactly the categories whose id differs from it. */
  lemma {:induction false} WithoutCategoryIsFilter(categories: seq<Category>, id: Id)
    ensures WithoutCategory(categories, id) == Filter(categories, CategoryIsNot(id))
    decreases |categories|
  {
    if categories != [] {
      WithoutCategoryIsFilter(categories[..|categories| - 1], id);
    }
  }

  /** No two records of `xs` share an id: each record's id differs from every earlier one. */
  ghost predicate UniqueIds<T>(xs: seq<T>, id: T -> Id) {
    xs == [] || (UniqueIds(xs[..|xs| - 1], id) && forall k :: 0 <= k < |xs| - 1 ==> id(xs[k]) != id(xs[|xs| - 1]))
  }

  lemma {:induction false} UniqueIdsAt<T>(xs: seq<T>, id: T -> Id, i: int, j: int)
    requires UniqueIds(xs, id) && 0 <= i < j < |xs|
    ensures id(xs[i]) != id(xs[j])
  {
    var n := |xs| - 1;
    if j < n {
      UniqueIdsAt(xs[..n], id, i, j);
      assert xs[..n][i] == xs[i] && xs[..n][j] == xs[j];
    }
  }

  /** Appending a record whose id is new keeps the ids unique. */
  lemma UniqueIdsSnoc<T>(xs: seq<T>, x: T, id: T -> Id)
    requires UniqueIds(xs, id) && forall k :: 0 <= k < |xs| ==> id(xs[k]) != id(x)
    ensures UniqueIds(xs + [x], id)
  {
    assert (xs + [x])[..|xs|] == xs;
  }

  /** A table whose records keep their ids, position by position, keeps them unique. */
  lemma {:induction false} SameIdsUnique<T>(xs: seq<T>, ys: seq<T>, id: T -> Id)
    requires UniqueIds(xs, id) && |ys| == |xs| && forall m :: 0 <= m < |xs| ==> id(ys[m]) == id(xs[m])
    ensures UniqueIds(ys, id)
  {
    if ys != [] {
      var n := |ys| - 1;
      SameIdsUnique(xs[..n], ys[..n], id);
      forall k | 0 <= k < n ensures id(ys[k]) != id(ys[n]) {
        UniqueIdsAt(xs, id, k, n);
      }
    }
  }

  class Database {
    var categories: seq<Category>
    var terms: seq<AcademicTerm>
    var items: seq<Item>
    var sessions: seq<InventorySession>
    var counts: seq<HistoricalCount>
    var users: map<Id, User>

    /** Document ids are unique within each table. */
    ghost predicate Valid()
      reads this
    {
      && UniqueIds(categories, CategoryId)
      && UniqueIds(terms, TermId)
      && UniqueIds(items, ItemId)
      && UniqueIds(sessions, SessionId)
      && UniqueIds(counts, CountId)
    }

    constructor ()
      ensures Valid()
      ensures categories == [] && terms == [] && items == [] && sessions == [] && counts == [] && users == map[]
    {
      categories, terms, items, sessions, counts, users := [], [], [], [], [], map[];
    }

    predicate FreshCountId(id: Id)
      reads this
    {
      forall i :: 0 <= i < |counts| ==> counts[i].id != id
    }

    /** The `where` query for the first record of (itemId, academicTermId). */
    method FindCount(itemId: Id, academicTermId: Id) returns (k: Option<nat>)
      ensures k == FirstCountFor(counts, itemId, academicTermId)
    {
      var i := 0;
      while i < |counts|
        invariant 0 <= i <= |counts|
        invariant forall j :: 0 <= j < i ==> !IsCountFor(counts[j], itemId, academicTermId)
      {
        if IsCountFor(counts[i], itemId, academicTermId) {
          FirstIndexIsFirstCount(counts, itemId, academicTermId, i);
          return Some(i);
        }
        i := i + 1;
      }
      FirstIndexIsFirstCount(counts, itemId, academicTermId, |counts|);
      k := None;
    }

    /** `createOrUpdateHistoricalCount(itemId, academicTermId, countedQuantity, sessionId?, countedByUid?)`. */
    method CreateOrUpdateHistoricalCount(itemId: Id, academicTermId: Id, countedQuantity: int,
                                         sessionId: Option<Id>, countedByUid: Option<Id>, now: int, freshId: Id)
      requires Valid() && FreshCountId(freshId)
      modifies this`counts
      ensures Valid()
      ensures counts == UpsertCount(old(counts), itemId, academicTermId, countedQuantity, sessionId, countedByUid, now, freshId)
    {
      var existing := FindCount(itemId, academicTermId);
      if existing.Some? {
        var k := existing.value;
        var updateData := counts[k].(countedQuantity := countedQuantity, importedAt := Some(now));
        if Truthy(sessionId) {
          updateData := updateData.(sessionId := sessionId);
        }
        if Truthy(countedByUid) {
          updateData := updateData.(countedByUid := countedByUid);
        }
        SameIdsUnique(counts, counts[k := updateData], CountId);
        counts := counts[k := updateData];
      } else {
        var newData := HistoricalCount(freshId, itemId, academicTermId, countedQuantity, Some(now), None, None);
        if Truthy(sessionId) {
          newData := newData.(sessionId := sessionId);
        }
        if Truthy(countedByUid) {
          newData := newData.(countedByUid := countedByUid);
        }
        UniqueIdsSnoc(counts, newData, CountId);
        counts := counts + [newData];
      }
    }

    /** `findOrCreateAcademicTermByCode(term, year, name?)`. */
    method FindOrCreateAcademicTermByCode(term: TermType, year: int, name: Option<string>, now: int, freshId: Id)
      returns (t: AcademicTerm)
      requires Valid() && forall i :: 0 <= i < |terms| ==> terms[i].id != freshId
      modifies this`terms
      ensures Valid()
      ensures t.term == term && t.year == year
      ensures FirstTermByCode(old(terms), term, year).Some? ==>
                t == old(terms)[FirstTermByCode(old(terms), term, year).value] && terms == old(terms)
      ensures FirstTermByCode(old(terms), term, year).None? ==>
                t == AcademicTerm(freshId, name.GetOr(Terms.TermDisplayName(term, year)), term, year, now)
                && terms == old(terms) + [t]
    {
      var i := 0;
      while i < |terms|
        invariant 0 <= i <= |terms|
        invariant forall j :: 0 <= j < i ==> !(terms[j].term == term && terms[j].year == year)
      {
        if terms[i].term == term && terms[i].year == year {
          FirstIndexIsFirstTerm(terms, term, year, i);
          return terms[i];
        }
        i := i + 1;
      }
      FirstIndexIsFirstTerm(terms, term, year, |terms|);
      var termName := name.GetOr(Terms.TermDisplayName(term, year));
      t := AcademicTerm(freshId, termName, term, year, now);
      terms := terms + [t];
    }

    /** `createOrUpdateUser(uid, email, displayName?, photoURL?)`. */
    method CreateOrUpdateUser(uid: Id, email: string, displayName: Option<string>, photoURL: Option<string>, now: int)
      modifies this`users
      ensures users == old(users)[uid := LoginRecord(old(users), uid, email, displayName, photoURL, now)]
    {
      if uid in users {
        var u := users[uid];
        users := users[uid := u.(email := email, displayName := OrNull(displayName),
                                 photoURL := OrNull(photoURL), lastLoginAt := now)];
      } else {
        var userData := User(uid, email, OrNull(displayName), OrNull(photoURL), now, now, Some(false), Some(false));
        users := users[uid := userData];
      }
    }

    /** `authorizeUser(uid)`; fails on a missing user. */
    method AuthorizeUser(uid: Id) returns (ok: bool)
      modifies this`users
      ensures ok == (uid in old(users))
      ensures users == if ok then old(users)[uid := old(users)[uid].(isAuthorized := Some(true))] else old(users)
    {
      ok := uid in users;
      if ok {
        users := users[uid := users[uid].(isAuthorized := Some(true))];
      }
    }

    /** `revokeUserAccess(uid)`; fails on a missing user. */
    method RevokeUserAccess(uid: Id) returns (ok: bool)
      modifies this`users
      ensures ok == (uid in old(users))
      ensures users == if ok then old(users)[uid := old(users)[uid].(isAuthorized := Some(false))] else old(users)
    {
      ok := uid in users;
      if ok {
        users := users[uid := users[uid].(isAuthorized := Some(false))];
      }
    }

    /** The counts that survive the deletions of `deleteInventorySession`: each count whose
        `sessionId` is the session's is deleted, one document at a time. */
    method CountsToKeep(sessionId: Id) returns (kept: seq<HistoricalCount>)
      ensures kept == Filter(counts, NotFromSession(sessionId))
    {
      kept := [];
      var i := 0;
      while i < |counts|
        invariant 0 <= i <= |counts|
        invariant kept == Filter(counts[..i], NotFromSession(sessionId))
      {
        FilterSnoc(counts[..i], counts[i], NotFromSession(sessionId));
        assert counts[..i + 1] == counts[..i] + [counts[i]];
        if counts[i].sessionId != Some(sessionId) {
          kept := kept + [counts[i]];
        }
        i := i + 1;
      }
      assert counts[..i] == counts;
    }

    /** `deleteInventorySession(sessionId)`: every count from the session is deleted, then the
        session document. */
    method DeleteInventorySession(sessionId: Id)
      requires Valid()
      modifies this`counts, this`sessions
      ensures Valid()
      ensures counts == Filter(old(counts), NotFromSession(sessionId))
      ensures sessions == Filter(old(sessions), SessionIsNot(sessionId))
    {
      FilterKeepsUnique(counts, NotFromSession(sessionId), CountId);
      FilterKeepsUnique(sessions, SessionIsNot(sessionId), SessionId);
      counts := CountsToKeep(sessionId);
      sessions := Filter(sessions, SessionIsNot(sessionId));
    }

    /** `updateItemsCategory(itemIds, newCategoryId)`: one batch, applied whole or not at all;
        it fails when a listed item does not exist. */
    method UpdateItemsCategory(itemIds: seq<Id>, newCategoryId: Id) returns (ok: bool)
      requires Valid()
      modifies this`items
      ensures Valid()
      ensures ok <==> AllExist(old(items), itemIds)
      ensures items == if ok then Recategorized(old(items), itemIds, newCategoryId) else old(items)
    {
      ok := true;
      var j := 0;
      while j < |itemIds|
        invariant 0 <= j <= |itemIds|
        invariant ok <==> forall m :: 0 <= m < j ==> HasItem(items, itemIds[m])
      {
        if !HasItem(items, itemIds[j]) {
          ok := false;
        }
        j := j + 1;
      }
      if ok {
        var updated: seq<Item> := [];
        var i := 0;
        while i < |items|
          invariant 0 <= i <= |items|
          invariant updated == Recategorized(items[..i], itemIds, newCategoryId)
        {
          var item := items[i];
          if item.id in itemIds {
            item := item.(categoryId := newCategoryId);
          }
          updated := updated + [item];
          i := i + 1;
        }
        assert items[..i] == items;
        SameIdsUnique(items, updated, ItemId);
        items := updated;
      }
    }

    /** `createOrUpdateInventoryCount(itemId, sessionId, countedQuantity, countedByUid?)`: saves
        under the session's academic term; fails when the session is missing or has none. */
    method CreateOrUpdateInventoryCount(itemId: Id, sessionId: Id, countedQuantity: int,
                                        countedByUid: Option<Id>, now: int, freshId: Id)
      returns (error: Option<string>)
      requires Valid() && FreshCountId(freshId)
      modifies this`counts
      ensures Valid()
      ensures var s := FindSession(sessions, sessionId);
              error.None? <==> s.Some? && Truthy(s.value.academicTermId)
      ensures error.Some? ==> error.value == SessionError && counts == old(counts)
      ensures error.None? ==>
                counts == UpsertCount(old(counts), itemId, FindSession(sessions, sessionId).value.academicTermId.value,
                                      countedQuantity, Some(sessionId), countedByUid, now, freshId)
    {
      var session := FindSession(sessions, sessionId);
      if session.None? || !Truthy(session.value.academicTermId) {
        return Some(SessionError);
      }
      CreateOrUpdateHistoricalCount(itemId, session.value.academicTermId.value, countedQuantity,
                                    Some(sessionId), countedByUid, now, freshId);
      error := None;
    }

    /** `createItem(item)` through `addDoc`: a document holding an `undefined` value is rejected
        and nothing changes; otherwise the new document gets a fresh id and `createdAt` = now. */
    method CreateItem(data: ItemData, now: int, freshId: Id) returns (result: Result<Id>)
      requires Valid() && forall i :: 0 <= i < |items| ==> items[i].id != freshId
      modifies this`items
      ensures Valid()
      ensures HasUndefined(data) ==> result.Failure? && result.error == UnsupportedUndefined && items == old(items)
      ensures !HasUndefined(data) ==>
                result == Success(freshId) && items == old(items) + [WrittenItem(data, now, freshId).value]
    {
      var written := WrittenItem(data, now, freshId);
      if written.None? {
        return Failure(UnsupportedUndefined);
      }
      UniqueIdsSnoc(items, written.value, ItemId);
      items := items + [written.value];
      result := Success(freshId);
    }

    /** `createInventorySession(session)`: the new document gets a fresh id and `createdAt` = now. */
    method CreateInventorySession(session: InventorySession, now: int, freshId: Id) returns (id: Id)
      requires Valid() && forall i :: 0 <= i < |sessions| ==> sessions[i].id != freshId
      modifies this`sessions
      ensures Valid()
      ensures id == freshId && sessions == old(sessions) + [session.(id := freshId, createdAt := now)]
    {
      UniqueIdsSnoc(sessions, session.(id := freshId, createdAt := now), SessionId);
      sessions := sessions + [session.(id := freshId, createdAt := now)];
      id := freshId;
    }

    method CreateCategory(name: string, now: int, freshId: Id) returns (id: Id)
      requires Valid() && forall i :: 0 <= i < |categories| ==> categories[i].id != freshId
      modifies this`categories
      ensures Valid()
      ensures id == freshId && categories == old(categories) + [Category(freshId, Trim(name), now)]
    {
      categories := categories + [Category(freshId, Trim(name), now)];
      id := freshId;
    }

    /** `updateCategory(id, name)`: renames to the trimmed name; fails on a missing category. */
    method UpdateCategory(id: Id, name: string) returns (ok: bool)
      requires Valid()
      modifies this`categories
      ensures Valid()
      ensures ok == HasCategory(old(categories), id)
      ensures categories == Renamed(old(categories), id, Trim(name))
    {
      ok := false;
      var i := 0;
      while i < |categories|
        invariant 0 <= i <= |categories| && categories == old(categories)
        invariant forall j :: 0 <= j < i ==> categories[j].id != id
      {
        if categories[i].id == id {
          forall j | i < j < |categories| ensures categories[j].id != id {
            UniqueIdsAt(categories, CategoryId, i, j);
          }
          var renamed := categories[i := categories[i].(name := Trim(name))];
          SameIdsUnique(categories, renamed, CategoryId);
          RenamedExactly(categories, id, Trim(name));
          ok, categories := true, renamed;
          return;
        }
        i := i + 1;
      }
      RenamedExactly(categories, id, Trim(name));
    }

    /** `deleteCategory(id)`; deleting a missing document changes nothing. */
    method DeleteCategory(id: Id)
      requires Valid()
      modifies this`categories
      ensures Valid()
      ensures categories == WithoutCategory(old(categories), id)
    {
      WithoutCategoryIsFilter(categories, id);
      FilterKeepsUnique(categories, CategoryIsNot(id), CategoryId);
      categories := WithoutCategory(categories, id);
    }
  }

  lemma FirstIndexIsFirstCount(counts: seq<HistoricalCount>, itemId: Id, academicTermId: Id, i: nat)
    requires i <= |counts|
    requires forall j :: 0 <= j < i ==> !IsCountFor(counts[j], itemId, academicTermId)
    requires i < |counts| ==> IsCountFor(counts[i], itemId, academicTermId)
    ensures FirstCountFor(counts, itemId, academicTermId) == if i < |counts| then Some(i) else None
  {
    var r := FirstCountFor(counts, itemId, academicTermId);
    if r.Some? && i < |counts| {
      assert !(r.value < i) && !(i < r.value);
    }
  }

  lemma FirstIndexIsFirstTerm(terms: seq<AcademicTerm>, term: TermType, year: int, i: nat)
    requires i <= |terms|
    requires forall j :: 0 <= j < i ==> !(terms[j].term == term && terms[j].year == year)
    requires i < |terms| ==> terms[i].term == term && terms[i].year == year
    ensures FirstTermByCode(terms, term, year) == if i < |terms| then Some(i) else None
  {
    var r := FirstTermByCode(terms, term, year);
    if r.Some? && i < |terms| {
      assert !(r.value < i) && !(i < r.value);
    }
  }

  lemma {:induction false} FilterKeepsUnique<T>(xs: seq<T>, p: T -> bool, id: T -> Id)
    requires UniqueIds(xs, id)
    ensures UniqueIds(Filter(xs, p), id)
  {
    if xs != [] {
      var n := |xs| - 1;
      FilterKeepsUnique(xs[..n], p, id);
      var f := Filter(xs[..n], p);
      assert Filter(xs, p) == f + (if p(xs[n]) then [xs[n]] else []);
      if p(xs[n]) {
        forall i | 0 <= i < |f| ensures id(f[i]) != id(xs[n]) {
          var k :| 0 <= k < n && xs[..n][k] == f[i];
          UniqueIdsAt(xs, id, k, n);
        }
        UniqueIdsSnoc(f, xs[n], id);
      } else {
        assert Filter(xs, p) == f;
      }
    }
  }

  /** The find-or-create keeps at most one term per (term, year). */
  lemma FindOrCreateKeepsCodesUnique(terms: seq<AcademicTerm>, t: AcademicTerm)
    requires CodesUnique(terms)
    requires FirstTermByCode(terms, t.term, t.year).None?
    ensures CodesUnique(terms + [t])
  {
  }
}
