/** The user-management page: which screen it shows, and the split of the user list into
    authorised users and users awaiting approval. */
module UsersPage {
  import opened Wrappers
  import opened Model
  import opened Collections

  /** What the page renders. */
  datatype Screen = Loading | NotAuthenticated | AccessDenied | Manage(authorized: seq<User>, pending: seq<User>)

  /** `currentUserData?.isAdmin === true`: only a stored `true` makes an administrator. */
  predicate IsAdmin(currentUserData: Option<User>) {
    currentUserData.Some? && currentUserData.value.isAdmin == Some(true)
  }

  function Authorized(u: User): bool { FlagOn(u.isAuthorized) }
  function NotAuthorized(u: User): bool { !FlagOn(u.isAuthorized) }

  /** The chain of early returns on the sign-in state (`currentUid`, absent when no one is
      signed in), the two loading flags and the signed-in user's record; past it, the users
      are split with `users.filter((u) => u.isAuthorized)` and its negation. */
  function Render(userLoading: bool, checkingAdmin: bool, currentUid: Option<Id>, currentUserData: Option<User>,
                  users: seq<User>): Screen {
    if userLoading || checkingAdmin || (currentUid.Some? && currentUserData.None?) then Loading
    else if currentUid.None? then NotAuthenticated
    else if !IsAdmin(currentUserData) then AccessDenied
    else Manage(Filter(users, Authorized), Filter(users, NotAuthorized))
  }

  /** Which screen each situation gives: the loading screen while anything is still being
      checked, including a signed-in user whose record has not arrived (or does not exist);
      'Not Authenticated' without a signed-in user; 'Access Denied' for anyone whose record
      does not say `isAdmin: true`; the management view otherwise. */
  lemma RenderLadder(userLoading: bool, checkingAdmin: bool, currentUid: Option<Id>, currentUserData: Option<User>,
                     users: seq<User>)
    ensures var s := Render(userLoading, checkingAdmin, currentUid, currentUserData, users);
            var waiting := userLoading || checkingAdmin || (currentUid.Some? && currentUserData.None?);
            && (s == Loading <==> waiting)
            && (s == NotAuthenticated <==> !waiting && currentUid.None?)
            && (s == AccessDenied <==> !waiting && currentUid.Some? && !IsAdmin(currentUserData))
            && (s.Manage? <==> !waiting && currentUid.Some? && IsAdmin(currentUserData))
  {
  }

  /** In the management view every user is listed exactly once: as authorised when the record
      says `isAuthorized: true`, and as pending otherwise (false or absent). */
  lemma ManagePartitions(userLoading: bool, checkingAdmin: bool, currentUid: Option<Id>, currentUserData: Option<User>,
                         users: seq<User>)
    requires Render(userLoading, checkingAdmin, currentUid, currentUserData, users).Manage?
    ensures var s := Render(userLoading, checkingAdmin, currentUid, currentUserData, users);
            && multiset(s.authorized) + multiset(s.pending) == multiset(users)
            && (forall i :: 0 <= i < |s.authorized| ==> s.authorized[i].isAuthorized == Some(true))
            && (forall i :: 0 <= i < |s.pending| ==> s.pending[i].isAuthorized != Some(true))
  {
    FilterSplit(users, Authorized, NotAuthorized);
  }

  /** The Remove button `user.id !== currentUser?.uid` on an authorised user's row. */
  function RemoveOffered(row: User, currentUid: Option<Id>): (offered: bool)
    ensures offered <==> currentUid.None? || currentUid.value != row.id
  {
    currentUid != Some(row.id)
  }
}
