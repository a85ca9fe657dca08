# AVault inventory core, modelled in Dafny

AVault keeps the equipment inventory of a university audio-visual office. Equipment
**items** belong to **categories**. Items are counted once per **academic term**
(FALL, WINTER, SPRING, SUMMER of a year), and each count is a **historical count**
keyed by (item, term). Staff run counting **sessions**, and admins authorize **users**.
The current app is a Next.js front end over a document store. It is backed by a legacy
Next.js app and by the original Django app (`avault/inventory`).

This project models the logic under those screens and proves properties about it:

- the academic calendar (`Terms`);
- the "latest count" of an item as the dashboard and the reports page resolve it, and
  the orderings behind it (`Resolution`, `Dashboard`, `Reports`);
- the store's writes and reads over in-memory tables (`Store`, `LegacyStore`);
- the category-deletion guard with its reassignment batches (`CategoriesPage`);
- the semester history grouping (`SemesterHistory`);
- the session and item creation forms (`NewSession`, `NewItem`);
- the users page's screen ladder (`UsersPage`);
- the configuration check (`FirebaseConfig`);
- the one-off JSON import script (`ImportInventory`);
- the Django models, views, forms and spreadsheet import rules (`InventoryModels`,
  `InventoryViews`, `InventoryForms`, `InventoryUtils`, `Spreadsheet`).

Shared modules: `Wrappers` (Option/Result), `Text` (JavaScript and Python whitespace,
ASCII case, substring search, integer printing, ordinal string order), `Model` (the
stored records), `Sorting` (a stable insertion sort standing for JavaScript's
`Array.prototype.sort`, with lemmas on its first elements; under a comparator that is a total
preorder every stable sort gives this result) and `Collections`
(filter, sum and grouping).

How the model represents the system:

- Tables are sequences in the order a query without `orderBy` returns them, which is
  ascending document id. A query's first match is the first element that matches. The users
  table is a map keyed by uid.
- A new document is appended to its table. The store's automatic ids are random, so in the
  program a new document takes an arbitrary place in id order. Wherever the model picks the
  first in table order, the program picks the first by document id. This applies to the
  tie-breaks of `Dashboard.LatestFromLatestTerm` and `Dashboard.LatestFromImportTime` and to
  the record an upsert finds.
- Timestamps, fresh document ids and "now" are parameters. So is the calendar date of
  `getCurrentTerm`.
- Pages whose handlers change component state are classes. Their fields are the state
  variables, and a `Database` object stands for the store.
- Functions that only compute are Dafny functions. Their meaning is stated in lemmas.

## Model

| member | source | states |
|---|---|---|
| Terms.GetCurrentTerm | app/lib/terms.ts:23-72 | the term keeps the date's year; on every real date its season is the one the published calendar assigns (Fall Aug 20-Dec 15, Winter Dec 16-Jan 15, Spring Jan 16-May 5, Summer May 6-Aug 19) and its name is the display name of that season and year |
| Terms.CalendarPartition | app/lib/terms.ts:28-68 | the four calendar ranges cover every real date exactly once |
| Terms.CurrentTermIsCalendarSeason | app/lib/terms.ts:23-72 | on a real date the chosen season is a given season exactly when the calendar puts the date in it, so the chain of tests never reaches its fallback |
| Terms.JanuaryWinterKeepsYear | app/lib/terms.ts:43-46 | January 1-15 is the winter term of the same calendar year, named with that year |
| Terms.FallbackName | app/lib/terms.ts:70-71 | the fallback names its term "Fall <year>", which differs from the display name "FALL <year>" |
| Terms.TermDisplayNameInjective | app/lib/terms.ts:77-79 | two display names are equal only for the same season and year |
| Model.OrNull | app/lib/firestore.ts:435-436 | `x \|\| null` stores a value exactly when it is present and non-empty, and then stores it unchanged |
| Resolution.FindTerm | app/components/Dashboard.tsx:90 | the lookup returns a loaded term with the requested id, and finds nothing exactly when no loaded term has that id |
| Resolution.TermCmpKey | app/components/Dashboard.tsx:97-103 | the (year descending, season descending) comparator puts `a` first exactly when `a` is not earlier in time than `b`, and ties exactly on the same position in time |
| Resolution.TermKeyInjective | app/components/Dashboard.tsx:97-103 | two terms share a position in time exactly when they have the same year and season |
| Resolution.ItemCounts | app/components/Dashboard.tsx:81 | the item's counts are counts from the table with that item id, all of them, and none exactly when no count has that id |
| Reports.Ordered | app/reports/page.tsx:46-55 | the sorted counts of an item are a permutation of its counts |
| Reports.LatestCount | app/reports/page.tsx:45-57 | an item without counts has latest count 0 |
| Reports.PreviousCount | app/reports/page.tsx:60-72 | an item with fewer than two counts has previous count 0 |
| Reports.LatestAgreesWithDashboard | app/reports/page.tsx:45-57 | when every count of the item references a loaded term, the reports page and the dashboard report the same latest count |
| Reports.CountLePreorder | app/reports/page.tsx:48-55 | when every term is known, the reports comparator is a total preorder on the item's counts, so the sort is well defined |
| Reports.LatestAndPreviousInTermOrder | app/reports/page.tsx:45-72 | when every term is known, the sorted counts are a permutation of the item's counts, arranged from the latest (year, season) down; latest and previous are the first two |
| Reports.SingleCount | app/reports/page.tsx:56-71 | with a single count, that count is the latest and the previous is 0 |
| Reports.Shortages | app/reports/page.tsx:75-87 | the shortage list is a permutation of the rows with a negative change, sorted largest drop first |
| Reports.Increases | app/reports/page.tsx:90-102 | the increase list is a permutation of the rows with a positive change, sorted largest rise first |
| Reports.ShortagesAndIncreases | app/reports/page.tsx:86-101 | an item is listed under shortages exactly when its change is negative, under increases exactly when it is positive, and never under both |
| Reports.SinglePositiveCountIncreases | app/reports/page.tsx:71-101 | an item with one positive count is listed under increases |
| Reports.NoRecentActivity | app/reports/page.tsx:105-111 | the list holds the items that meet the stale condition, all of them, in item order |
| Reports.StaleCases | app/reports/page.tsx:106-111 | an item without counts is listed; with no terms loaded an item with counts is not; otherwise it is listed exactly when none of its counts is for the first loaded term |
| Dashboard.WithTerms | app/components/Dashboard.tsx:88-93 | the pairs hold counts of the item with the term each one references, and there are none exactly when no count references a loaded term |
| Dashboard.WithTermsAllKnown | app/components/Dashboard.tsx:88-93 | when every term is known, every count keeps its place and is paired with its own term |
| Dashboard.GetLatestCount | app/components/Dashboard.tsx:80-85 | an item without counts has latest count 0 |
| Dashboard.TermLePreorder | app/components/Dashboard.tsx:97-103 | the term comparator is a total preorder, so the stable sort is well defined |
| Dashboard.BestTermIsLatest | app/components/Dashboard.tsx:95-104 | the pair the stable sort brings to the front has a maximal (year, season), and every pair before it in table order has a strictly earlier one |
| Dashboard.LatestFromLatestTerm | app/components/Dashboard.tsx:80-105 | when some count references a loaded term, the latest count is the quantity of a count with the latest (year, season), the first such in table order; the import time plays no part |
| Dashboard.ImportedLePreorder | app/components/Dashboard.tsx:109-113 | the import-time comparator is a total preorder |
| Dashboard.LatestFromImportTime | app/components/Dashboard.tsx:107-115 | when no count references a loaded term, the latest count is that of the count with the greatest import time (a missing one counts as 0), the first such in table order |
| Dashboard.FilteredItems | app/components/Dashboard.tsx:137-144 | the shown items are items that match both the search and the category, and every item that matches both is shown |
| Dashboard.FilterKeepsAll | app/components/Dashboard.tsx:138-142 | with an empty search and no category selected every item is shown, in order |
| Dashboard.FilterByCategory | app/components/Dashboard.tsx:142 | with an empty search, selecting a category shows exactly that category's items, in order |
| Dashboard.LowerUpperLower | app/components/Dashboard.tsx:139 | lower-casing after upper-casing is lower-casing |
| Dashboard.SearchIgnoresCase | app/components/Dashboard.tsx:138-141 | the search ignores letter case: a query and its upper-cased form show the same items |
| Dashboard.CategoryLabel | app/components/Dashboard.tsx:149-150 | the group label is never empty ("Uncategorized" stands in for a missing or unnamed category) |
| Dashboard.FindCategory | app/components/Dashboard.tsx:149 | the lookup returns a category with the requested id, and finds nothing exactly when none has it |
| Dashboard.ItemsByCategory | app/components/Dashboard.tsx:147-155 | the groups are keyed by exactly the labels of the filtered items; each group holds exactly the filtered items with that label, in order; the label order lists each group once |
| Dashboard.GroupedOnce | app/components/Dashboard.tsx:147-155 | every filtered item is in the group of its own label and in no other, and the groups together hold as many items as were filtered |
| Dashboard.ToggleCategory | app/components/Dashboard.tsx:118-126 | toggling flips whether that group is expanded and leaves every other group as it was |
| Dashboard.ToggleTwice | app/components/Dashboard.tsx:118-126 | toggling the same group twice restores the expanded set |
| Dashboard.LatestNonNegative | app/components/Dashboard.tsx:80-116 | with non-negative stored quantities every latest count is non-negative |
| Dashboard.GroupTotalNonNegative | app/components/Dashboard.tsx:354 | with non-negative stored quantities every group total is non-negative |
| Store.FirstCountFor | app/lib/firestore.ts:347-355 | the record the upsert targets is the first one in document order for (itemId, academicTermId), and there is none exactly when no record has that pair |
| Store.UpsertWritesOneRecord | app/lib/firestore.ts:347-381 | the upsert adds a record exactly when none exists for the pair; afterwards the first record for the pair has the new quantity and import time, and every other record is unchanged |
| Store.UpsertKeepsOptionalFields | app/lib/firestore.ts:353-379 | the session id and the counter are written only when supplied (non-empty): an update without them keeps the stored values, and a new record without them has none |
| Store.UpsertKeepsPairsUnique | app/lib/firestore.ts:347-381 | with at most one record per (item, term) before, there is at most one after |
| Store.UpsertRepeatAddsNothing | app/lib/firestore.ts:352-381 | repeating the upsert for the same pair adds no second record |
| Store.FirstTermByCode | app/lib/firestore.ts:126-135 | the term found is the first one with that season and year, and there is none exactly when no term has them |
| Store.FirstIndexIsFirstCount | app/lib/firestore.ts:352-355 | an index that holds the pair and has no match before it is the one the upsert targets |
| Store.FirstIndexIsFirstTerm | app/lib/firestore.ts:134-135 | an index that holds (season, year) and has no match before it is the one the lookup returns |
| Store.FindOrCreateKeepsCodesUnique | app/lib/firestore.ts:126-151 | appending a term whose (season, year) is new keeps (season, year) unique across the terms |
| Store.LoginRecord | app/lib/firestore.ts:429-452 | the login writes the email, the login time, and the display name and photo with empty replaced by null; a new user is created with isAdmin and isAuthorized false; an existing user keeps its id, creation time and both flags |
| Store.LoginKeepsAccess | app/lib/firestore.ts:431-452 | after a login the user is authorized exactly when the user existed and was authorized |
| Store.Recategorized | app/lib/firestore.ts:204-212 | the batch keeps the number of items |
| Store.RecategorizedExactly | app/lib/firestore.ts:204-212 | a listed item gets the new category and keeps every other field; an unlisted item is unchanged |
| Store.GetItems | app/lib/firestore.ts:157-178 | the read returns as many items as the category has, or all items when no category is given |
| Store.GetItemsSortedByName | app/lib/firestore.ts:157-178 | the read is sorted by name and is a permutation of the category's items, or of all items when no category is given |
| Store.GetCategoriesSortedByName | app/lib/firestore.ts:39-46 | `getCategories` returns every stored category exactly once, sorted by name (`orderBy('name')`) |
| Store.ItemNameLePreorder | app/lib/firestore.ts:177 | comparing names is a total preorder, so the sort is well defined |
| Store.GetHistoricalCounts | app/lib/firestore.ts:311-328 | the read returns no more counts than are stored |
| Store.GetHistoricalCountsSelected | app/lib/firestore.ts:311-328 | every count read passes the item and term clauses that were given and has an import time |
| Store.GetHistoricalCountsFromStore | app/lib/firestore.ts:311-328 | every count read is a stored count, with only its missing import time filled in |
| Store.GetHistoricalCountsComplete | app/lib/firestore.ts:311-328 | every stored count that passes the given clauses is read |
| Store.FindSession | app/lib/firestore.ts:293 | the lookup returns a session with the requested id, or nothing when none has it |
| Store.RenamedExactly | app/lib/firestore.ts:67-72 | the rename changes the name of the category with the id and nothing else |
| Store.WithoutCategoryIsFilter | app/lib/firestore.ts:74-77 | deleting a category removes exactly the categories with that id and keeps the others in order |
| Store.Database.constructor | app/lib/firestore.ts:36-37 | the store starts empty, with its invariant |
| Store.Database.FindCount | app/lib/firestore.ts:347-352 | the query finds the first record for the pair, or none |
| Store.Database.CreateOrUpdateHistoricalCount | app/lib/firestore.ts:340-382 | the counts become the upserted table and the store invariant is kept |
| Store.Database.FindOrCreateAcademicTermByCode | app/lib/firestore.ts:120-152 | the result has the requested season and year; an existing term is returned as stored and nothing is written; otherwise one term named `name ?? "<SEASON> <year>"` is appended |
| Store.Database.CreateOrUpdateUser | app/lib/firestore.ts:416-461 | only the user's own record changes, and it becomes the login record |
| Store.Database.AuthorizeUser | app/lib/firestore.ts:463-468 | an existing user's isAuthorized becomes true and nothing else changes; a missing user makes the update fail with no change |
| Store.Database.RevokeUserAccess | app/lib/firestore.ts:470-475 | an existing user's isAuthorized becomes false and nothing else changes; a missing user makes the update fail with no change |
| Store.Database.CountsToKeep | app/lib/firestore.ts:264-271 | the counts that survive are exactly those not from the session, in order |
| Store.Database.DeleteInventorySession | app/lib/firestore.ts:262-278 | every count from the session and then the session itself are removed; all other counts and sessions stay, in order |
| Store.Database.UpdateItemsCategory | app/lib/firestore.ts:204-212 | the batch succeeds exactly when every listed item exists; then exactly the listed items get the new category, otherwise nothing changes |
| Store.Database.CreateOrUpdateInventoryCount | app/lib/firestore.ts:286-306 | it fails with "Session not found or has no academic term", changing nothing, exactly when the session is missing or has no term; otherwise it upserts under the session's term with that session id |
| Store.Database.CreateItem | app/lib/firestore.ts:191-197 | a document holding an `undefined` value is refused and nothing changes; otherwise one item is appended with the new id, the creation time, and each optional field present exactly when given |
| Store.Database.CreateInventorySession | app/lib/firestore.ts:244-252 | one session is appended with the new id and the creation time |
| Store.Database.CreateCategory | app/lib/firestore.ts:59-65 | one category is appended with the trimmed name |
| Store.Database.UpdateCategory | app/lib/firestore.ts:67-72 | the category with the id gets the trimmed name; the update fails when none has the id |
| Store.Database.DeleteCategory | app/lib/firestore.ts:74-77 | the category with the id is removed and the others stay in order |
| LegacyStore.FirstCountFor | avault-next/app/lib/firestore.ts:208-215 | the record the legacy upsert targets is the first one for (itemId, sessionId), and there is none exactly when no record has that pair |
| LegacyStore.UpsertWritesOneRecord | avault-next/app/lib/firestore.ts:201-233 | a record is added exactly when none exists for the pair; afterwards one record for the pair holds the new quantity, counter and count time together, an updated record keeps its id, and every other record is unchanged |
| LegacyStore.UpsertKeepsPairsUnique | avault-next/app/lib/firestore.ts:201-233 | with at most one record per (item, session) before, there is at most one after |
| LegacyStore.FirstIndexIsFirstCount | avault-next/app/lib/firestore.ts:215-217 | an index that holds the pair and has no match before it is the one the upsert targets |
| LegacyStore.GetItems | avault-next/app/lib/firestore.ts:98-110 | with a category, the read is a permutation of exactly that category's items; without one, of all items; either way sorted by name |
| LegacyStore.GetInventoryCounts | avault-next/app/lib/firestore.ts:186-199 | the read is a permutation of exactly the session's counts, sorted by item id |
| LegacyStore.ItemIdLePreorder | avault-next/app/lib/firestore.ts:191 | ordering by item id is a total preorder |
| LegacyStore.LegacyDatabase.constructor | avault-next/app/lib/firestore.ts:185 | the legacy tables start empty |
| LegacyStore.LegacyDatabase.CreateOrUpdateInventoryCount | avault-next/app/lib/firestore.ts:201-233 | the counts become the upserted table |
| LegacyStore.LegacyDatabase.CreateCategory | avault-next/app/lib/firestore.ts:48-54 | one category is appended with the name upper-cased |
| LegacyStore.UpperCasedName | avault-next/app/lib/firestore.ts:50 | the stored name has the input's length and no lower-case ASCII letter |
| CategoriesPage.Lookup | app/categories/page.tsx:127 | the chosen category of an item is the one recorded for it, and there is none exactly when nothing was chosen for it |
| CategoriesPage.LookupEntry | app/categories/page.tsx:139 | with one entry per item, every recorded entry is what the lookup finds |
| CategoriesPage.SetChoice | app/categories/page.tsx:405-409 | choosing a category for an item records it for that item and leaves every other item's choice as it was |
| CategoriesPage.SetChoiceKeys | app/categories/page.tsx:405-409 | a choice adds no item other than the chosen one |
| CategoriesPage.SetChoiceUnique | app/categories/page.tsx:405-409 | the choices keep one entry per item |
| CategoriesPage.SetChoicePlace | app/categories/page.tsx:405-409 | a first choice for an item is appended at the end; a repeated choice replaces the item's first entry in place, and every other entry stays where it was |
| CategoriesPage.SetChoiceReplaces | app/categories/page.tsx:405-409 | a repeated choice rewrites exactly the item's first entry, at its index, with the new category |
| CategoriesPage.Moved | app/categories/page.tsx:147-149 | moving an item keeps its id |
| CategoriesPage.ReassignTargets | app/categories/page.tsx:414-415 | the offered targets are the other categories, all of them; the category being deleted is never offered |
| CategoriesPage.Reassigned | app/categories/page.tsx:147-149 | running the batches keeps the number of items |
| CategoriesPage.ReassignedAt | app/categories/page.tsx:147-149 | after the batches, an item that appears in one has that batch's category and every other item is unchanged |
| CategoriesPage.ReassignedKeepsIds | app/categories/page.tsx:147-149 | the batches neither add nor remove items |
| CategoriesPage.InBatch | app/categories/page.tsx:138-144 | an item id is in a target's group exactly when that target was chosen for it, so each item is in exactly one group |
| CategoriesPage.TargetOfPrefix | app/categories/page.tsx:147-149 | after the first batches, an item has moved exactly when its chosen target is among the targets handled so far |
| CategoriesPage.AllBatchesMove | app/categories/page.tsx:138-149 | after all batches every chosen item has its chosen category and every other item is unchanged |
| CategoriesPage.SomeBatchesMove | app/categories/page.tsx:147-149 | after any prefix of the batches every item either still has its category or has its chosen one |
| CategoriesPage.FirstBatchesExistAll | app/categories/page.tsx:147-149 | the batches run so far only listed existing items |
| CategoriesPage.BatchStep | app/categories/page.tsx:148 | a batch meets the same items whether or not earlier batches ran, and running it re-categorises exactly its items |
| CategoriesPage.BatchesExist | app/categories/page.tsx:138-149 | every batch can succeed exactly when every item that was given a choice exists |
| CategoriesPage.FindCategory | app/categories/page.tsx:92 | the lookup returns a loaded category with the id, and finds nothing exactly when none has it |
| CategoriesPage.CountInIsFilter | app/categories/page.tsx:37-38 | the recorded count is the number of items in the category |
| CategoriesPage.ItemCountIsCategorySize | app/categories/page.tsx:37-38 | the category's item read returns as many items as the category has |
| CategoriesPage.LoadStep | app/categories/page.tsx:36-39 | one loop step records the next category's item count and keeps the counts already recorded |
| CategoriesPage.CountsOfLoaded | app/categories/page.tsx:35-40 | the loaded counts record, for each category, the number of items in it |
| CategoriesPage.CategoriesPageState.constructor | app/categories/page.tsx:9-22 | the page starts with no categories, no error, no form or dialog open and no choices |
| CategoriesPage.CategoriesPageState.FetchCategories | app/categories/page.tsx:31-39 | the loaded categories are the stored ones, each exactly once, in name order, and each gets its item count |
| CategoriesPage.CategoriesPageState.LoadCategories | app/categories/page.tsx:28-46 | the page shows the stored categories in name order (the `getCategories` read) with their item counts |
| CategoriesPage.CategoriesPageState.HandleCreate | app/categories/page.tsx:48-67 | a name blank after trimming sets 'Category name is required' and writes nothing; otherwise the trimmed name is stored, the form is closed and cleared, and the page reloads |
| CategoriesPage.CategoriesPageState.HandleUpdate | app/categories/page.tsx:69-88 | a name blank after trimming sets 'Category name is required' and writes nothing; otherwise the category gets the trimmed name and editing ends, or, when the category is gone, the update error is shown and editing stays open |
| CategoriesPage.CategoriesPageState.HandleDelete | app/categories/page.tsx:90-121 | an unknown category, or an empty one the user does not confirm, changes nothing; a category with items opens reassignment with its items and writes nothing; a confirmed empty category is deleted and the page reloads |
| CategoriesPage.CategoriesPageState.OpenReassignDialog | app/categories/page.tsx:98-102 | the dialog opens for the category with its items and no choices |
| CategoriesPage.CategoriesPageState.SaveNew | app/categories/page.tsx:57-61 | one category with the trimmed name is stored, the form is closed and cleared, and the page reloads |
| CategoriesPage.CategoriesPageState.SaveEdit | app/categories/page.tsx:78-84 | the category is renamed to the trimmed name; success ends editing and reloads; a missing category leaves editing open with the error |
| CategoriesPage.CategoriesPageState.DeleteAndReload | app/categories/page.tsx:113-115 | the category is deleted and the page reloads |
| CategoriesPage.CategoriesPageState.ChooseCategory | app/categories/page.tsx:405-409 | the choice for the item is recorded and the others kept |
| CategoriesPage.CategoriesPageState.MoveChosenItems | app/categories/page.tsx:138-149 | the moves succeed exactly when every chosen item exists; whatever happens each item keeps its category or gets its chosen one, and on success every chosen item has its chosen category |
| CategoriesPage.CategoriesPageState.RunBatches | app/categories/page.tsx:147-149 | the batches run in order until one fails; the items are those after the batches that ran, and all ran exactly when every batch lists only existing items |
| CategoriesPage.CategoriesPageState.HandleReassignAndDelete | app/categories/page.tsx:123-165 | without a category nothing happens; while any item lacks a choice the page shows 'Please assign all ...' and writes nothing; otherwise the category is deleted exactly when every move succeeded, only after every chosen item has its chosen category, and the dialog closes |
| CategoriesPage.CategoriesPageState.ReassignAndDelete | app/categories/page.tsx:133-164 | the category is deleted exactly when every move succeeded, after every chosen item has its chosen category; a failure leaves the category and shows the error |
| CategoriesPage.CategoriesPageState.FinishDeletion | app/categories/page.tsx:152-159 | the category is deleted, the dialog closes, its state is cleared and the page reloads |
| SemesterHistory.FindItem | app/semester-history/page.tsx:63 | the lookup returns a loaded item with the id, and finds nothing exactly when none has it |
| SemesterHistory.RowsExactly | app/semester-history/page.tsx:62-71 | every grouped row pairs a loaded count with the item it names, and every count whose item is loaded gets a row |
| SemesterHistory.RowsAndDropped | app/semester-history/page.tsx:62-148 | the rows and the dropped counts together are all the loaded counts, and the total quantity (over all loaded counts) is the rows' quantities plus the dropped ones' |
| SemesterHistory.TotalItemsIsRows | app/semester-history/page.tsx:63-136 | the 'Total Items' figure equals the number of grouped rows exactly when no count names a missing item |
| SemesterHistory.CountsByCategory | app/semester-history/page.tsx:60-71 | the groups are keyed by exactly the labels of the rows; each group holds exactly the rows with that label, in order; the label order lists each group once |
| SemesterHistory.CountGroupedOnce | app/semester-history/page.tsx:62-71 | a count whose item is missing is in no group; any other count is in the group of its item's category label ('Uncategorized' when unnamed) and in no other |
| SemesterHistory.GroupCount | app/semester-history/page.tsx:160 | the categories figure equals the number of distinct labels |
| SemesterHistory.SemesterHistoryPage.constructor | app/semester-history/page.tsx:13-19 | the page starts with nothing loaded and no term selected |
| SemesterHistory.SemesterHistoryPage.LoadData | app/semester-history/page.tsx:27-46 | the loaded tables are kept and the first loaded term becomes the selected one when any term exists |
| SemesterHistory.SemesterHistoryPage.LoadTermData | app/semester-history/page.tsx:48-56 | with a term selected the counts become that term's stored counts; without one nothing changes |
| SemesterHistory.LoadedCountsOfTerm | app/semester-history/page.tsx:51 | every loaded count belongs to the selected term and has an import time |
| NewSession.DraftFollowsCalendar | app/sessions/new/page.tsx:24-49 | the new session's season is the calendar season of the day it is created and its year that day's year; it has no academic term id and is not complete |
| NewSession.DraftNotes | app/sessions/new/page.tsx:48 | notes are stored exactly when they are non-blank, and then with no surrounding whitespace |
| NewSession.DraftName | app/sessions/new/page.tsx:39 | a stored name is non-empty with no surrounding whitespace |
| NewSession.NewSessionPage.constructor | app/sessions/new/page.tsx:16-22 | the form starts empty with no error |
| NewSession.NewSessionPage.HandleSubmit | app/sessions/new/page.tsx:26-58 | a blank name shows 'Session name is required' and creates nothing; otherwise exactly one session is appended, built from the trimmed fields, the current term and the signed-in user, and the page goes to its counting page |
| NewItem.ParamOr | app/items/new/page.tsx:20-68 | a present, non-empty query parameter is used as given; otherwise the default ('' for the category, '/' for the return address) |
| NewItem.OrUndefined | app/items/new/page.tsx:63-65 | an empty field becomes `undefined`, and a non-empty one is handed over as typed |
| NewItem.SpacesNameAccepted | app/items/new/page.tsx:53-61 | a name of one space passes validation although it is blank, and is handed to the store untrimmed |
| NewItem.DraftRefusedWhenFieldEmpty | app/items/new/page.tsx:60-66 | the object handed to the store holds an `undefined` value, and is refused, exactly when the location, the condition or the serial frequency is empty |
| NewItem.BlankLocationRefused | app/items/new/page.tsx:53-66 | an item "Mic" of category "c1" entered without a location passes the form's check but is not stored |
| NewItem.OrOmitted | app/sessions/new/page.tsx:47-48 | corrected: an empty field is left out of the object, and a non-empty one is handed over as typed |
| NewItem.OmittingDraftStored | app/items/new/page.tsx:60-66 | corrected: with empty fields left out, the store always accepts the item, and each optional field is stored exactly when it is non-empty, as typed |
| NewItem.NewItemPage.constructor | app/items/new/page.tsx:18-24 | the form starts empty except for the category, taken from the query parameter or '' |
| NewItem.NewItemPage.HandleSubmit | app/items/new/page.tsx:48-75 | a missing name or category shows 'Name and category are required' and creates nothing; with any optional field empty the store refuses the write, the page shows its message and stays, and nothing is created; otherwise exactly one item is appended with the form's fields and the page goes to the return address or '/' |
| UsersPage.RenderLadder | app/users/page.tsx:91-146 | the page waits while loading, while checking admin status, or while a signed-in user's record is missing; otherwise it shows 'Not Authenticated' exactly when nobody is signed in, 'Access Denied' exactly when the user is not an admin, and the management lists exactly for an admin (isAdmin exactly true) |
| UsersPage.ManagePartitions | app/users/page.tsx:145-146 | the authorized and pending lists together are exactly the users, the first holding authorized users and the second the others |
| UsersPage.RemoveOffered | app/users/page.tsx:244 | the Remove action is offered on an authorised user's row exactly when it is not the signed-in user's own row |
| FirebaseConfig.ConfiguredExactly | app/lib/firebase.ts:15-26 | the configuration is usable exactly when all six fields are non-empty, the API key is not 'your-api-key-here' and the project id is not 'your-project-id' |
| FirebaseConfig.Connection.constructor | app/lib/firebase.ts:29-31 | the app, auth and database handles start out null |
| FirebaseConfig.Connection.Initialize | app/lib/firebase.ts:33-48 | without a usable configuration all three handles stay null; with one, an existing app is reused (a new one is made only when none exists) and both auth and database are bound to that app |
| ImportInventory.FindYear | scripts/import-inventory.ts:71 | the search finds the first position from which a standalone 19xx or 20xx year starts, or reports that there is none |
| ImportInventory.YearValue | scripts/import-inventory.ts:74 | a matched year lies between 1900 and 2099 |
| ImportInventory.YearRange | scripts/import-inventory.ts:71-74 | four digits starting 19 or 20 have a value between 1900 and 2099 |
| ImportInventory.SeasonIn | scripts/import-inventory.ts:76-80 | the season found occurs in the text and no season checked before it occurs; none is found exactly when no season code occurs |
| ImportInventory.ParseAcademicTerm | scripts/import-inventory.ts:68-85 | a parsed year lies between 1900 and 2099 |
| ImportInventory.ParseNormalized | scripts/import-inventory.ts:71-84 | a parsed year lies between 1900 and 2099 |
| ImportInventory.ParseSucceeds | scripts/import-inventory.ts:71-82 | a period name parses exactly when its upper-cased, trimmed form holds a standalone year and a season code |
| ImportInventory.ParseSeason | scripts/import-inventory.ts:76-80 | the parsed season occurs in the name, and no season earlier in the order SPRING, SUMMER, FALL, WINTER does |
| ImportInventory.ParseYear | scripts/import-inventory.ts:71-74 | the parsed year is read at the first standalone year in the name |
| ImportInventory.FirstYearValue | scripts/import-inventory.ts:71-74 | the value read is that of a standalone year in the text |
| ImportInventory.ParseOf | scripts/import-inventory.ts:71-84 | with the first year at a known place and a season present, the parse is that season and that year |
| ImportInventory.DisplayNameNormal | scripts/import-inventory.ts:69 | a season code, a space and digits are already upper-case and trimmed |
| ImportInventory.NormalizedFixes | scripts/import-inventory.ts:69 | upper-casing and trimming leave a text unchanged when it is upper-case and has no surrounding whitespace |
| ImportInventory.DisplayNameYear | scripts/import-inventory.ts:71 | in "<CODE> <digits>" the first standalone year is the digits |
| ImportInventory.MissingLetter | scripts/import-inventory.ts:77-80 | a word with a letter the text lacks does not occur in the text |
| ImportInventory.DisplayNameSeason | scripts/import-inventory.ts:76-80 | in "<CODE> <digits>" the season found is that code's |
| ImportInventory.DisplayNameParses | scripts/import-inventory.ts:68-85 | parsing a display name "<SEASON> <year>" of a year from 1900 to 2099 gives back that season and year |
| ImportInventory.CodeYearParses | scripts/import-inventory.ts:68-85 | "<CODE> <four year digits>" parses to that season and year |
| ImportInventory.ParseFromNormalized | scripts/import-inventory.ts:69 | a name that normalisation leaves unchanged parses as its normal form does |
| ImportInventory.CodeYearParsesNormalized | scripts/import-inventory.ts:71-84 | "<CODE> <four year digits>" parses to that season and year once normalised |
| ImportInventory.YearValueAt | scripts/import-inventory.ts:74 | the year read after "<CODE> " is the value of the digits |
| ImportInventory.CollapseUnderscores | scripts/import-inventory.ts:89 | the result has no '__' run, takes its characters from the input and keeps its first and last characters |
| ImportInventory.StripUnderscores | scripts/import-inventory.ts:89 | without '__' runs in the input, the result neither starts nor ends with '_' and has no '__' run |
| ImportInventory.CleanCategoryName | scripts/import-inventory.ts:87-90 | a cleaned id holds only A-Z, 0-9 and '_', does not start or end with '_', and has no '__' run |
| ImportInventory.CollapseFixes | scripts/import-inventory.ts:89 | collapsing leaves a text without '__' runs unchanged |
| ImportInventory.CleanIdempotent | scripts/import-inventory.ts:87-90 | cleaning a cleaned id changes nothing |
| ImportInventory.ImportableNames | scripts/import-inventory.ts:124-148 | the names kept are exactly the periods that parse and are usable document ids |
| ImportInventory.ImportedTermsSnoc | scripts/import-inventory.ts:124-154 | the loop state after one more period is one step applied to the state before it |
| ImportInventory.ImportTermStepCases | scripts/import-inventory.ts:125-153 | an unparseable period changes nothing; a parsed name holding '/' throws and is only recorded as failed; an existing term only gets its map entry; a new one is written with its name, season and year, mapped to its own id, and counted |
| ImportInventory.ImportTerms | scripts/import-inventory.ts:120-154 | the loop ends in the state the period-by-period rule describes |
| ImportInventory.ImportedTermMap | scripts/import-inventory.ts:126-148 | the term map holds exactly the periods that parse and are usable document ids, each mapped to its own name |
| ImportInventory.ImportedTermFailures | scripts/import-inventory.ts:132-153 | the recorded failures are, in order, exactly the periods that parse but hold '/' |
| ImportInventory.ImportedTermDocs | scripts/import-inventory.ts:132-146 | the stored terms are the existing ones, unchanged, plus one new term per importable period not already present, written with that period's name, season and year |
| ImportInventory.ImportTermStepDocs | scripts/import-inventory.ts:132-148 | one step keeps existing terms unchanged and writes only terms parsed from period names |
| ImportInventory.ImportedTermCount | scripts/import-inventory.ts:142 | the created-terms counter equals the number of terms that were not there before |
| ImportInventory.ImportTermStepCount | scripts/import-inventory.ts:135-146 | one step keeps the created-terms counter equal to the number of new terms |
| ImportInventory.NewKeyCounts | scripts/import-inventory.ts:136-142 | writing a new key adds one to the number of keys not there before |
| ImportInventory.ImportableNamesSnoc | scripts/import-inventory.ts:124-148 | one more period adds its name to the importable names exactly when it parses and is a usable document id |
| ImportInventory.ImportItemCounts | scripts/import-inventory.ts:195-215 | one count is written per kept cell, in order, with the item id, the mapped term id and the quantity, and the counter equals the number written |
| ImportInventory.KeptCell | scripts/import-inventory.ts:196-202 | a cell is kept exactly when it holds a number and its period has a term id |
| ImportInventory.CountStep | scripts/import-inventory.ts:195-215 | one loop step writes a count exactly when the cell is kept |
| ImportInventory.CountsWrittenSnoc | scripts/import-inventory.ts:207-214 | writing one more kept cell extends the written counts by its count |
| ImportInventory.ImportedCells | scripts/import-inventory.ts:196-202 | every numeric cell whose period has a term id is imported, and every imported cell is such a cell |
| ImportInventory.ImportedItem | scripts/import-inventory.ts:182-189 | the item keeps its id and name and is stamped with the import time; its category id is the cleaned category name; each optional field is stored exactly when it is given and non-empty, and then unchanged; otherwise it is null |
| InventoryModels.LatestIndex | avault/inventory/models.py:36 | the index picked holds a session date no earlier than any other count's |
| InventoryModels.GetLatestCount | avault/inventory/models.py:34-37 | an item without counts has latest count 0; otherwise the latest count is the quantity of a count whose session date is the latest |
| InventoryModels.ShortageFollowsNewestCount | avault/inventory/models.py:34-41 | once a count from a strictly later session exists, it is the latest count, and the item is short exactly when that count is below the expected quantity |
| InventoryModels.UncountedShortage | avault/inventory/models.py:37-41 | an item never counted is short exactly when it expects more than zero |
| InventoryModels.CompletionPercentage | avault/inventory/models.py:58-62 | with no items the percentage is 0; otherwise it is the largest whole percentage not above counted/total |
| InventoryModels.CompletionBounds | avault/inventory/models.py:58-62 | with no more counts than items, the percentage is at most 100, and is 100 exactly when every item is counted |
| InventoryModels.ShortageIsDiscrepancy | avault/inventory/models.py:39-82 | a count below the expected quantity is a discrepancy; a count above it is a discrepancy but not a shortage |
| InventoryViews.SessionCounts | avault/inventory/views.py:40-43 | the count table of a session has an entry for exactly the items counted in that session |
| InventoryViews.SessionCountsExact | avault/inventory/views.py:40-43 | with one count per (item, session), an item's entry is its count in that session |
| InventoryViews.ClassifyItems | avault/inventory/views.py:54-90 | the loop builds exactly the shortage rows and the new-item rows the per-item rules describe |
| InventoryViews.Reports | avault/inventory/views.py:17-100 | with no completed session both lists are empty and only the item total is given; otherwise the current and previous sessions are the first two completed ones and the lists are the shortage and new-item rows over the current session's counts |
| InventoryViews.ShortageRowsSound | avault/inventory/views.py:58-68 | every shortage row is for an item whose current count (0 when uncounted) is below its expected quantity, with shortage equal to expected minus current, which is positive |
| InventoryViews.ShortageRowsComplete | avault/inventory/views.py:57-68 | every item whose current count is below its expected quantity gets a shortage row |
| InventoryViews.NewItemRowsSound | avault/inventory/views.py:70-90 | every new-item row is for an item with a positive current count that the new-item rule accepts |
| InventoryViews.NewItemRowsComplete | avault/inventory/views.py:70-90 | every item the new-item rule accepts gets a row with its current count |
| InventoryViews.NewItemsOnce | avault/inventory/views.py:71-83 | with distinct item ids, no item is listed twice as new |
| InventoryViews.NewWithoutPrevious | avault/inventory/views.py:84-90 | with no previous session an item is new exactly when its current count is positive |
| InventoryViews.Tables.constructor | avault/inventory/views.py:4-6 | the tables hold the given items, session counts and historical counts |
| InventoryViews.Tables.DeleteItem | avault/inventory/views.py:3-15 | an anonymous request is sent to the login page and changes nothing; an unknown item gives 404 and changes nothing; a POST deletes the item, its session counts and its historical counts (the cascades of avault/inventory/migrations/0002_add_semester_support.py:47) and redirects to the dashboard; any other method redirects to the item's edit page without deleting |
| InventoryViews.DeletionRemovesAll | avault/inventory/views.py:10 | after the deletion no item, no session count and no historical count with that id remain, and every other item is kept |
| Spreadsheet.SemesterColumns | avault/inventory/utils.py:31-32 | the semester columns are the sheet's columns other than the four metadata columns, all of them, in order |
| InventoryUtils.Head | avault/inventory/utils.py:199 | `xs[:n]` is a prefix of `xs` of length min(n, len) for n >= 0, and drops the last -n entries for negative n |
| InventoryUtils.TrendMeaning | avault/inventory/utils.py:195-222 | there is no analysis exactly when fewer than two counts are considered; otherwise at most num_terms counts are taken, the change is the last minus the first, the trend is increasing, decreasing or stable exactly as the change is positive, negative or zero, and latest and previous are the last two considered counts |
| InventoryUtils.ClassifyExactly | avault/inventory/utils.py:254-282 | an item goes to 'added' exactly when 0 becomes positive, 'removed' exactly when a positive count becomes 0, 'increased' or 'decreased' exactly when both are positive and differ that way, and 'stable' exactly when they are equal (0 to 0 included) |
| InventoryUtils.GenerateComparison | avault/inventory/utils.py:224-284 | there is no report exactly when either term name is unknown; otherwise each of the five lists holds exactly the items of that bucket, in order |
| InventoryUtils.FileItem | avault/inventory/utils.py:254-282 | one loop step appends the item to its bucket's list and to no other |
| InventoryUtils.ComparisonPartition | avault/inventory/utils.py:250-282 | the five lists together are as long as the list of compared items |
| InventoryUtils.BucketMembership | avault/inventory/utils.py:254-282 | an item is in a bucket's list exactly when its two counts classify into that bucket |
| InventoryUtils.TextCountData | avault/inventory/utils.py:59-63 | a text cell counts as count data exactly when it is non-empty and all digits |
| InventoryUtils.ParseCountCell | avault/inventory/utils.py:111-127 | an empty cell gives nothing; a number is kept exactly when it is not negative; 'n/a', 'na' or blank text (in any case, after stripping) gives nothing |
| InventoryUtils.CountCellRoundTrip | avault/inventory/utils.py:115-127 | the decimal text of a count, with whitespace around it, reads back as that count |
| InventoryUtils.CountCellNotAvailable | avault/inventory/utils.py:116-118 | 'N/A', 'Na' and blank cells are skipped |
| InventoryUtils.PadStrip | avault/inventory/utils.py:116 | stripping removes surrounding whitespace and keeps the digits |
| InventoryUtils.DropLeadingPad | avault/inventory/utils.py:116 | stripping the front removes exactly the leading whitespace |
| InventoryUtils.DropTrailingPad | avault/inventory/utils.py:116 | stripping the back removes exactly the trailing whitespace |
| InventoryUtils.BlankStripsAway | avault/inventory/utils.py:116-117 | whitespace alone strips to the empty text |
| InventoryUtils.ImportRowKind | avault/inventory/utils.py:53-80 | a row is skipped exactly when its name is empty; it heads a category exactly when its name is longer than two characters and no semester cell holds count data, and is then named in capitals; it is an item exactly when it has a name, a current category and some semester cell with count data |
| InventoryUtils.FindCount | avault/inventory/utils.py:129-133 | the lookup finds a count for the (item, term) pair, or reports that none exists |
| InventoryUtils.CountImport.constructor | avault/inventory/utils.py:19-28 | the counters start at zero over the stored counts |
| InventoryUtils.CountImport.Record | avault/inventory/utils.py:127-144 | a new (item, term) pair adds one count and one to 'created'; an existing count is rewritten, with one added to 'updated', only when its value differs; otherwise nothing changes |
| InventoryUtils.FirstMaxIndex | avault/inventory/utils.py:153 | `max` picks the first entry with the greatest key |
| InventoryUtils.AsWrittenKeyIsTupleOrder | avault/inventory/utils.py:153 | the key used is the (year, term code) tuple order, comparing codes as strings |
| InventoryUtils.LatestImportTermAsWritten | avault/inventory/utils.py:153 | as written, the import session's term is a term with the greatest (year, code string), and exists exactly when some term was imported |
| InventoryUtils.LatestImportTermCounterexample | avault/inventory/utils.py:153 | with FALL 2024 and SPRING 2024 imported, the code picks SPRING 2024; the corrected rule picks FALL 2024 |
| InventoryUtils.LatestImportTerm | avault/inventory/utils.py:153 | corrected: the import session's term is the latest by year and then by season in calendar order, and exists exactly when some term was imported |
| InventoryUtils.CalendarKeyFollowsDates | avault/inventory/utils.py:153 | within one year, the corrected order follows the calendar order of the seasons from January onwards |
| InventoryForms.CleanCategoryName | avault/inventory/forms.py:40-44 | the name is accepted exactly when its stripped, upper-cased form is not an existing category name, and is then returned in that form; otherwise 'A category with this name already exists.' |
| InventoryForms.CategoryNameNormal | avault/inventory/forms.py:41 | a cleaned category name has no lower-case ASCII letter and no surrounding whitespace, and cleaning it again changes nothing |
| InventoryForms.CategoryNamesIgnoreCase | avault/inventory/forms.py:41-43 | " wired mics " is refused when "WIRED MICS" exists |
| InventoryForms.CleanSessionName | avault/inventory/forms.py:68-72 | the name is accepted exactly when its stripped form is not an existing session name, and is then returned stripped but not upper-cased; otherwise 'A session with this name already exists.' |
| InventoryForms.SessionNamesKeepCase | avault/inventory/forms.py:69-70 | "summer 2025" is accepted, unchanged in case, when "Summer 2025" exists |
| InventoryForms.ItemFormCategory | avault/inventory/forms.py:25 | the category field is valid exactly when a category is chosen, and otherwise reports the field as required |
| InventoryForms.ImportSessionName | avault/inventory/forms.py:92-93 | the import session is named after the last semester column, or 'Import Session' when there is none |
| InventoryForms.LegacyRowKind | avault/inventory/forms.py:106-123 | a row is skipped exactly when it has no name; it is a category header exactly when its name is longer than three characters and no semester cell holds a number; it is an item row exactly when it has a name, a current category and a numeric semester cell; headers and items keep the row's name |
| InventoryForms.LastNumber | avault/inventory/forms.py:130-134 | the value found is a numeric cell with no numeric cell after it, and there is none exactly when no cell is numeric |
| InventoryForms.LatestCount | avault/inventory/forms.py:129-134 | the reversed scan returns the last numeric semester cell of the row, or 0 when there is none |
| InventoryForms.LastNumberStep | avault/inventory/forms.py:131-134 | extending the scanned cells by one: a number there is the new last number, otherwise the last number is unchanged |
| Sorting.Sort | app/components/Dashboard.tsx:97-103 | the stable sort used for every in-memory `sort` returns a permutation of its input |
| Sorting.SortSorted | app/reports/page.tsx:48-55 | under a comparator that is a total preorder on the input, the result is sorted |
| Sorting.SortHead | app/components/Dashboard.tsx:104 | the first element after the stable sort is the first element that may precede all others |
| Sorting.SortKeepsElements | app/components/Dashboard.tsx:97-104 | every element of the sorted list comes from the input |
| Collections.GroupBy | app/components/Dashboard.tsx:147-155 | the forEach-and-push grouping creates one group per key, listing the keys in order of their first element, each group holding exactly the elements with that key, in order |
| Collections.GroupsPartition | app/semester-history/page.tsx:67-70 | an element is in a key's group exactly when it has that key |
| Text.TrimBlank | app/sessions/new/page.tsx:30 | `trim()` yields the empty text exactly when the text is blank |
| Text.YearDigits | app/lib/terms.ts:77-79 | a year from 1900 to 2099 is written with four digits starting 19 or 20, which read back as that year |

## Left out

- Floating point is not modelled:
  - Python's `int(float(x))` parsing of spreadsheet cells (avault/inventory/utils.py:120, 124-125).
  - Float cells in the legacy import (avault/inventory/forms.py:113, 133).
  - Quantities in JavaScript are whole numbers here. That makes `countedQuantity || 0` the number itself, since there is no NaN.
- InventoryUtils.ParseCountCell: reads only an optional sign followed by decimal digits. Decimals, exponents, 'inf', 'nan' and digit underscores, which `float()` also accepts, are not read.
- InventoryModels.CompletionPercentage: exact integer division. Python computes `int(counted / total * 100)` in binary floating point, which can come out one lower (29/100 gives 28).
- Case mapping and digit tests are ASCII-only:
  - `toUpperCase` and `toLowerCase` in the dashboard search, the import script and the legacy category store;
  - Python's `upper`, `lower` and `isdigit`.
- `localeCompare` (app/lib/firestore.ts:177) is modelled as ordinal string order.
- The store's own `orderBy` is modelled as a sort for `getItems` and `getCategories` (`orderBy('name')`, app/lib/firestore.ts:40). Elsewhere it is modelled only where the model reads from it:
  - The terms table is taken in the order the store returns it (`orderBy('year', 'desc')`, app/lib/firestore.ts:86).
  - Django's completed sessions are taken in `-date` order (avault/inventory/views.py:21).
- Store.GetCategoriesSortedByName: the order of categories with equal names is not stated. The store breaks such ties by document id. The stable sort keeps table order, which is id order, but no lemma says so.
- InventoryViews.Tables.DeleteItem: the success message (`messages.success`) is not modelled, and the login page is one response without its `next` parameter.
- The order in which Django's `order_by('-session__date').first()` breaks ties between equal session dates is not modelled. InventoryModels.GetLatestCount returns some count with the latest date.
- The store's rejection of `undefined` field values is modelled for `createItem`. The other writes of the current app leave out fields that are not given, except `conductedByUid`. The new-session page sits behind the sign-in guard, so that field is modelled as the signed-in user's uid.
- LegacyStore.LegacyDatabase.CreateOrUpdateInventoryCount: an absent `countedByUid` is handed to the store as `undefined` (avault-next/app/lib/firestore.ts:217-229). The legacy app's database set-up is not part of this model, so whether that write is refused is not known here. The model stores the counter as absent.
- `Object.entries` puts integer-like keys first. The model keeps insertion order, so it assumes item and category ids are not integer-like.
- Dashboard.ItemsByCategory and SemesterHistory.CountsByCategory group into a plain object `{}` keyed by category name (app/components/Dashboard.tsx:146-154, app/semester-history/page.tsx:61-71). The model assumes no name is integer-like and none names a member every object inherits. A category named "constructor", "toString" or "__proto__" finds an inherited member there, so `.push` throws and the page fails. Integer-like names would be listed first.
- Reports.LatestCount and Reports.PreviousCount: the reports comparator returns 0 when either term is unknown (app/reports/page.tsx:48-55), so it is not a consistent comparator. The order `Array.prototype.sort` then produces is left to the engine. The model's stable insertion sort gives one such order, and the properties are claimed only for an item whose every count has a known term.
- ImportInventory.ImportTermStepCases, ImportInventory.ImportedTermMap, ImportInventory.ImportedTermDocs: every parsed period name that holds '/' is taken as refused by `collection('academicTerms').doc(name)`. The Admin SDK refuses a path with an odd number of segments or an empty segment. A name with an even number of '/' and no empty segment instead addresses a term document in a nested collection, which is not modelled.
- Concurrency, `Promise.all`, batch atomicity and races between users are not modelled. Each operation runs alone and in sequence. A failing write in a reassignment batch stops the remaining batches.
- The store's reads are not part of this model, except `getItems`, `getCategories` and `getHistoricalCounts`. These reads only map snapshots:
  - `getAcademicTerms`, `getItem`, `getInventorySessions`;
  - `getHistoricalCountsBySession`, `getUser`, `getAllUsers`.
- Several simple writes are not part of this model: `updateItem`, `deleteItem`, `updateInventorySession`, `createHistoricalCount` and `deleteUser`. They are single unconditional document writes.
- The users page handlers (authorize, revoke, delete, each followed by a reload) are not modelled. They only call `Store.Database.AuthorizeUser` and `Store.Database.RevokeUserAccess` or delete a document.
- The loading and submitting flags and the error text of caught exceptions are not modelled on any page.
- The import script's category loop (scripts/import-inventory.ts:159-174) and the errors it collects are not modelled. The model covers the item record it builds and its count loop.
- The Django spreadsheet import is modelled only in part:
  - Modelled: row classification, count-cell parsing, the historical-count counters and the choice of the session's term.
  - Not modelled: creating and updating items (avault/inventory/utils.py:82-107), creating the session and its compatibility counts (avault/inventory/utils.py:154-184), and the term counter at lines 37-46.
  - `AcademicTerm.get_or_create_from_excel_header`, `Item.get_count_history` and `Item.get_count_for_term` are not part of this model. The trend analysis therefore takes the item's count history as a parameter, and the comparison takes the two counts of each item.
- The legacy Django import is modelled only in part: the session name, row classification and latest-count scan are modelled; `get_or_create` of categories, items and counts (avault/inventory/forms.py:95-101, 118-121, 137-166) is not.
- `reports` computes a `previous_count` for each item but never uses it. The model leaves it out.
- `export_reports` (the spreadsheet writer) is not modelled.

## Findings

| source | as written | input that shows it | evidently intended | confidence | as-written member | corrected member |
|---|---|---|---|---|---|---|
| avault/inventory/utils.py:153 | the import session's term is the maximum by `(t.year, t.term)`, which compares the term codes as strings: FALL < SPRING < SUMMER < WINTER | terms FALL 2024 and SPRING 2024: SPRING 2024 is chosen, though FALL 2024 comes later in the academic calendar | the latest term in calendar order within the year (SPRING < SUMMER < FALL < WINTER, the order the dashboard and reports use) | not executed | InventoryUtils.LatestImportTermAsWritten, InventoryUtils.LatestImportTermCounterexample | InventoryUtils.LatestImportTerm |
| app/items/new/page.tsx:63-65 | each empty optional field (location, condition, serial frequency) is handed to `createItem` as the value `undefined`; the client SDK, set up without `ignoreUndefinedProperties` (app/lib/firebase.ts:40), refuses a document holding `undefined` | name "Mic", category "c1", location left empty: `addDoc` is refused, the page shows the error and no item is created | an empty optional field is left out of the document, as the new-session page does for `notes` (app/sessions/new/page.tsx:47-48), so an item with blank optional fields is stored | not executed | NewItem.NewItemPage.HandleSubmit, NewItem.BlankLocationRefused | NewItem.OrOmitted, NewItem.OmittingDraftStored |
