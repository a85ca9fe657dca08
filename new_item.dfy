/** The add-item form: an item needs a name and a category; an empty optional text field is
    handed to the store as `undefined`; after saving, the page returns to where it came from. */
module NewItem {
  import opened Wrappers
  import opened Model
  import opened Text
  import opened Store

  const NameAndCategoryRequired := "Name and category are required"

  /** `searchParams.get(name) || ''`: a missing or empty query parameter reads as ''. */
  function ParamOr(param: Option<string>, default: string): (r: string)
    ensures Truthy(param) ==> r == param.value
    ensures !Truthy(param) ==> r == default
  {
    if param.Some? && param.value != [] then param.value else default
  }

  /** `x || undefined` on a form field: an empty field becomes an `undefined` value. */
  function OrUndefined(s: string): (r: Field)
    ensures r.Undefined? <==> s == []
    ensures !r.Undefined? ==> r == Given(s)
  {
    if s == [] then Undefined else Given(s)
  }

  /** The form's check `!formData.name || !formData.categoryId`, negated. */
  predicate Accepted(name: string, categoryId: Id) {
    name != [] && categoryId != []
  }

  /** The object `handleSubmit` hands to `createItem`. */
  function ItemDraft(name: string, categoryId: Id, location: string, condition: string, serialFrequency: string): ItemData {
    ItemData(name, categoryId, OrUndefined(location), OrUndefined(condition), OrUndefined(serialFrequency))
  }

  /** The name is neither trimmed nor checked for blankness: a name made only of spaces is
      accepted and handed to the store as typed, unlike the session and category names. */
  lemma SpacesNameAccepted(categoryId: Id)
    requires categoryId != []
    ensures Accepted(" ", categoryId) && IsBlank(" ") && Trim(" ") == []
    ensures ItemDraft(" ", categoryId, "a", "b", "c").name == " "
    ensures WrittenItem(ItemDraft(" ", categoryId, "a", "b", "c"), 0, "i").value.name == " "
  {
    TrimBlank(" ");
  }

  /** As written, the draft holds an `undefined` value, which the store refuses, exactly when
      one of the three optional fields is left empty. */
  lemma DraftRefusedWhenFieldEmpty(name: string, categoryId: Id, location: string, condition: string,
                                   serialFrequency: string, now: int, freshId: Id)
    ensures var draft := ItemDraft(name, categoryId, location, condition, serialFrequency);
            && (HasUndefined(draft) <==> location == [] || condition == [] || serialFrequency == [])
            && (WrittenItem(draft, now, freshId).None? <==> location == [] || condition == [] || serialFrequency == [])
  {
  }

  /** A microphone entered without a location is not stored. */
  lemma BlankLocationRefused(now: int, freshId: Id)
    ensures Accepted("Mic", "c1")
    ensures WrittenItem(ItemDraft("Mic", "c1", "", "Good", "Yearly"), now, freshId).None?
  {
  }

  /** `...(x ? { field: x } : {})`, the idiom the session form uses for `notes`: an empty field
      is left out of the object. */
  function OrOmitted(s: string): (r: Field)
    ensures r.Omitted? <==> s == []
    ensures !r.Omitted? ==> r == Given(s)
  {
    if s == [] then Omitted else Given(s)
  }

  /** The object the form evidently means to hand over: empty optional fields left out. */
  function OmittingDraft(name: string, categoryId: Id, location: string, condition: string, serialFrequency: string): ItemData {
    ItemData(name, categoryId, OrOmitted(location), OrOmitted(condition), OrOmitted(serialFrequency))
  }

  /** With empty fields left out, the store always accepts the draft, and each optional field
      is stored exactly when it is non-empty, as typed. */
  lemma OmittingDraftStored(name: string, categoryId: Id, location: string, condition: string,
                            serialFrequency: string, now: int, freshId: Id)
    ensures WrittenItem(OmittingDraft(name, categoryId, location, condition, serialFrequency), now, freshId).Some?
    ensures var item := WrittenItem(OmittingDraft(name, categoryId, location, condition, serialFrequency), now, freshId).value;
            && item.name == name && item.categoryId == categoryId
            && (item.location.Some? <==> location != []) && item.location.GetOr([]) == location
            && (item.condition.Some? <==> condition != []) && item.condition.GetOr([]) == condition
            && (item.serialFrequency.Some? <==> serialFrequency != []) && item.serialFrequency.GetOr([]) == serialFrequency
  {
  }

  /** The form's state. */
  class NewItemPage {
    const db: Database
    var name: string
    var categoryId: Id
    var location: string
    var condition: string
    var serialFrequency: string
    var error: string
    var route: Option<string>

    /** The form opens with the category of the `categoryId` query parameter, or none. */
    constructor (db: Database, categoryParam: Option<string>)
      ensures this.db == db && categoryId == ParamOr(categoryParam, "")
      ensures name == [] && location == [] && condition == [] && serialFrequency == []
      ensures error == [] && route.None?
    {
      this.db := db;
      categoryId := ParamOr(categoryParam, "");
      name, location, condition, serialFrequency, error, route := [], [], [], [], [], None;
    }

    /** `handleSubmit` at time `now`; `freshId` is the id the store would give the new document.
        After saving, the page goes to the `returnTo` query parameter, or to '/'; when the store
        refuses the document, the page shows the store's message and stays. */
    method HandleSubmit(returnTo: Option<string>, now: int, freshId: Id)
      requires db.Valid() && forall i :: 0 <= i < |db.items| ==> db.items[i].id != freshId
      modifies this`error, this`route, db`items
      ensures db.Valid()
      ensures !Accepted(name, categoryId) ==>
                error == NameAndCategoryRequired && db.items == old(db.items) && route == old(route)
      ensures Accepted(name, categoryId) && (location == [] || condition == [] || serialFrequency == []) ==>
                error == UnsupportedUndefined && db.items == old(db.items) && route == old(route)
      ensures Accepted(name, categoryId) && location != [] && condition != [] && serialFrequency != [] ==>
                db.items == old(db.items) + [WrittenItem(ItemDraft(name, categoryId, location, condition, serialFrequency), now, freshId).value]
                && error == [] && route == Some(ParamOr(returnTo, "/"))
    {
      error := [];
      if name == [] || categoryId == [] {
        error := NameAndCategoryRequired;
        return;
      }
      DraftRefusedWhenFieldEmpty(name, categoryId, location, condition, serialFrequency, now, freshId);
      var result := db.CreateItem(ItemDraft(name, categoryId, location, condition, serialFrequency), now, freshId);
      if result.Failure? {
        error := result.error;
        return;
      }
      route := Some(ParamOr(returnTo, "/"));
    }
  }
}
