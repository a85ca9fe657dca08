/** The records stored in the inventory database. Timestamps are integers supplied by the
    caller; optional fields that may be absent (or stored as `null`) are `Option`s. */
module Model {
  import opened Wrappers

  type Id = string

  /** The four seasons of the academic calendar. */
  datatype TermType = Spring | Summer | Fall | Winter

  /** The stored code of a season: 'SPRING', 'SUMMER', 'FALL' or 'WINTER'. */
  function TermCode(t: TermType): (code: string)
    ensures |code| >= 4
  {
    match t
    case Spring => "SPRING"
    case Summer => "SUMMER"
    case Fall => "FALL"
    case Winter => "WINTER"
  }

  /** Season order within a year used by the count resolution: SPRING < SUMMER < FALL < WINTER. */
  function Rank(t: TermType): (r: int)
    ensures 1 <= r <= 4
  {
    match t
    case Spring => 1
    case Summer => 2
    case Fall => 3
    case Winter => 4
  }

  datatype Category = Category(id: Id, name: string, createdAt: int)

  datatype AcademicTerm = AcademicTerm(id: Id, name: string, term: TermType, year: int, createdAt: int)

  datatype Item = Item(
    id: Id,
    name: string,
    categoryId: Id,
    location: Option<string>,
    condition: Option<string>,
    serialFrequency: Option<string>,
    createdAt: int)

  datatype HistoricalCount = HistoricalCount(
    id: Id,
    itemId: Id,
    academicTermId: Id,
    countedQuantity: int,
    importedAt: Option<int>,
    sessionId: Option<Id>,
    countedByUid: Option<Id>)

  datatype InventorySession = InventorySession(
    id: Id,
    name: string,
    academicTermId: Option<Id>,
    term: Option<TermType>,
    termYear: Option<int>,
    date: int,
    conductedByUid: Option<Id>,
    isComplete: bool,
    notes: Option<string>,
    createdAt: int)

  /** A per-session count of the legacy app. */
  datatype InventoryCount = InventoryCount(
    id: Id,
    itemId: Id,
    sessionId: Id,
    countedQuantity: int,
    countedByUid: Option<Id>,
    countedAt: int)

  datatype User = User(
    id: Id,
    email: string,
    displayName: Option<string>,
    photoURL: Option<string>,
    lastLoginAt: int,
    createdAt: int,
    isAdmin: Option<bool>,
    isAuthorized: Option<bool>)

  /** `x || null`: an empty string is falsy and is stored as null. */
  function OrNull(x: Option<string>): (r: Option<string>)
    ensures r.Some? <==> x.Some? && x.value != []
    ensures r.Some? ==> r == x
  {
    if x.Some? && x.value != [] then x else None
  }

  /** JavaScript truthiness of an optional string: present and non-empty. */
  predicate Truthy(s: Option<string>) {
    s.Some? && s.value != []
  }

  /** JavaScript truthiness of an optional boolean. */
  predicate FlagOn(b: Option<bool>) {
    b == Some(true)
  }
}
