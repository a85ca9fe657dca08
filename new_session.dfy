/** The new-session form: a session needs a name that is not blank; it starts incomplete,
    takes the season and year of the current date, and has no academic term yet. */
module NewSession {
  import opened Wrappers
  import opened Model
  import opened Text
  import opened Terms
  import opened Store

  const SessionNameRequired := "Session name is required"

  /** The document `handleSubmit` hands to `createInventorySession`: the trimmed name, the
      season and year of `getCurrentTerm()`, the date `now`, the signed-in user, not complete,
      and `notes` only when they are not blank (trimmed). The store replaces `id` and
      `createdAt`. */
  function SessionDraft(name: string, notes: string, info: CurrentTermInfo, now: int, uid: Option<Id>): InventorySession {
    InventorySession([], Trim(name), None, Some(info.term), Some(info.year), now, uid, false,
                     if Trim(notes) != [] then Some(Trim(notes)) else None, now)
  }

  /** A session created on a valid date carries that date's season of the academic calendar
      and the date's own year, is not complete, and is linked to no academic term. */
  lemma DraftFollowsCalendar(name: string, notes: string, month: int, day: int, year: int, now: int, uid: Option<Id>)
    requires ValidDate(month, day)
    ensures var s := SessionDraft(name, notes, GetCurrentTerm(month, day, year), now, uid);
            && s.term.Some? && CalendarSeason(month, day, s.term.value) && s.termYear == Some(year)
            && s.academicTermId.None? && !s.isComplete
  {
  }

  /** Notes are stored exactly when they are not blank, and then without surrounding spaces. */
  lemma DraftNotes(name: string, notes: string, info: CurrentTermInfo, now: int, uid: Option<Id>)
    ensures var s := SessionDraft(name, notes, info, now, uid);
            && (s.notes.Some? <==> !IsBlank(notes))
            && (s.notes.Some? ==> s.notes.value != [] && !IsJsSpace(s.notes.value[0])
                                  && !IsJsSpace(s.notes.value[|s.notes.value| - 1]))
  {
    TrimBlank(notes);
    StripEnds(notes, IsJsSpace);
  }

  /** An accepted name is stored non-empty and without surrounding spaces. */
  lemma DraftName(name: string, notes: string, info: CurrentTermInfo, now: int, uid: Option<Id>)
    requires !IsBlank(name)
    ensures var s := SessionDraft(name, notes, info, now, uid);
            s.name != [] && !IsJsSpace(s.name[0]) && !IsJsSpace(s.name[|s.name| - 1])
  {
    TrimBlank(name);
    StripEnds(name, IsJsSpace);
  }

  /** The form's state. */
  class NewSessionPage {
    const db: Database
    var name: string
    var notes: string
    var error: string
    var route: Option<string>

    constructor (db: Database)
      ensures this.db == db && name == [] && notes == [] && error == [] && route.None?
    {
      this.db := db;
      name, notes, error, route := [], [], [], None;
    }

    /** `handleSubmit` on the date (`month`, `day`, `year`) the page was rendered, at time
        `now`, by the signed-in user `uid` (the page sits behind the sign-in guard, so
        `user?.uid` is defined); `freshId` is the id the store gives the new document. A blank
        name is refused without a write; otherwise the session is created and the page moves
        to its counting screen. */
    method HandleSubmit(month: int, day: int, year: int, now: int, uid: Id, freshId: Id)
      requires db.Valid() && forall i :: 0 <= i < |db.sessions| ==> db.sessions[i].id != freshId
      modifies this`error, this`route, db`sessions
      ensures db.Valid()
      ensures IsBlank(name) ==> error == SessionNameRequired && db.sessions == old(db.sessions) && route == old(route)
      ensures !IsBlank(name) ==>
                db.sessions == old(db.sessions)
                  + [SessionDraft(name, notes, GetCurrentTerm(month, day, year), now, Some(uid)).(id := freshId, createdAt := now)]
      ensures !IsBlank(name) ==> error == [] && route == Some("/sessions/" + freshId + "/count")
    {
      var currentTermInfo := GetCurrentTerm(month, day, year);
      error := [];
      TrimBlank(name);
      if Trim(name) == [] {
        error := SessionNameRequired;
        return;
      }
      var sessionId := db.CreateInventorySession(SessionDraft(name, notes, currentTermInfo, now, Some(uid)), now, freshId);
      route := Some("/sessions/" + sessionId + "/count");
    }
  }
}
