/** The signed-in user as the API returns it (`types/auth.ts`), the outcome
    of `useAuth().fetchUser()`, the navigation result of a route middleware,
    and the session state the two route guards share: `user` and the
    `auth.checked` flag. */
module AuthState {
  import opened Wrappers

  /** The branch (sucursal) summary embedded in a user. */
  datatype BranchSummary = BranchSummary(id: int, name: string, code: Option<string>)

  /** `AuthUser`: the optional fields are `Option`s; `roles` and
      `permissions` may be missing altogether. */
  datatype AuthUser = AuthUser(
    id: int,
    name: string,
    email: string,
    emailVerifiedAt: Option<string>,
    createdAt: Option<string>,
    updatedAt: Option<string>,
    sucursalId: Option<int>,
    sucursal: Option<BranchSummary>,
    roles: Option<seq<string>>,
    permissions: Option<seq<string>>)

  /** What a call of `fetchUser()` does: it stores the user the API answered
      with (possibly none), or it throws. */
  datatype FetchOutcome = Loaded(user: Option<AuthUser>) | Threw

  /** What a route middleware returns: nothing (the navigation goes on) or
      `navigateTo(path)`. */
  datatype Nav = Allow | Redirect(path: string)

  /** The state shared by the guards: `useAuth().user` and the
      `useState('auth.checked')` flag. The ghost counter records how many
      times `fetchUser` was called. */
  class Session {
    var user: Option<AuthUser>
    var checked: bool
    ghost var fetches: nat

    /** A fresh page load: nobody signed in, nothing checked yet. */
    constructor ()
      ensures user == None && !checked && fetches == 0
    {
      user := None;
      checked := false;
      fetches := 0;
    }

    /** `await fetchUser()`: a user that was loaded replaces the current one;
        a call that throws leaves it alone and reports the exception. */
    method FetchUser(outcome: FetchOutcome) returns (threw: bool)
      modifies this`user, this`fetches
      ensures threw <==> outcome.Threw?
      ensures user == (if outcome.Loaded? then outcome.user else old(user))
      ensures fetches == old(fetches) + 1
    {
      threw := outcome.Threw?;
      if !threw {
        user := outcome.user;
      }
      fetches := fetches + 1;
    }
  }
}
