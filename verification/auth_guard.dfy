/** The global route guard (`middleware/auth.global.ts`): a small state
    machine over the session's `checked` flag and `user`. The first
    navigation on the client calls `fetchUser` once and sets `checked`;
    later navigations only look at `user`. */
module AuthGuard {
  import opened Wrappers
  import opened AuthState

  /** Pages a visitor may open without signing in. */
  const PublicPages: set<string> := {"/login", "/forgot-password", "/reset-password", "/register", "/unauthorized"}

  /** Pages only for visitors: a signed-in user is sent to `/`. */
  const GuestOnly: set<string> := {"/login", "/forgot-password", "/reset-password", "/register"}

  /** Every guest-only page is public, and `/unauthorized` is the one public
      page a signed-in user may stay on. */
  lemma {:induction false} GuestOnlyIsPublic()
    ensures GuestOnly <= PublicPages
    ensures PublicPages - GuestOnly == {"/unauthorized"}
  {
  }

  /** The user after the guard's check: untouched once `checked` is set;
      otherwise the one `fetchUser` loaded, or none when it threw. */
  function UserAfter(checked: bool, user: Option<AuthUser>, outcome: FetchOutcome): (u: Option<AuthUser>)
    ensures checked ==> u == user
    ensures !checked && outcome.Threw? ==> u.None?
  {
    if checked then user
    else match outcome
      case Loaded(loaded) => loaded
      case Threw => None
  }

  /** Where a client-side navigation to `path` ends, given the session
      before it and what `fetchUser` would do. */
  function Expected(path: string, checked: bool, user: Option<AuthUser>, outcome: FetchOutcome): (nav: Nav)
    ensures nav.Redirect? ==> nav.path != path
  {
    var u := UserAfter(checked, user, outcome);
    if path in PublicPages then
      if u.Some? && path in GuestOnly then Redirect("/") else Allow
    else if !checked && outcome.Threw? then Redirect("/login")
    else if u.None? then
      if path != "/login" then Redirect("/login") else Allow
    else if path in GuestOnly then Redirect("/")
    else Allow
  }

  /** A public page: a signed-in user is sent to `/` exactly when the page
      is guest-only; `/unauthorized` and visitors stay. */
  lemma {:induction false} PublicPageRedirect(path: string, checked: bool, user: Option<AuthUser>, outcome: FetchOutcome)
    requires path in PublicPages
    ensures Expected(path, checked, user, outcome) == Redirect("/") <==>
      UserAfter(checked, user, outcome).Some? && path != "/unauthorized"
    ensures Expected(path, checked, user, outcome) != Redirect("/") ==> Expected(path, checked, user, outcome) == Allow
  {
  }

  /** A protected page: it is shown exactly when there is a user after the
      check, and otherwise the visitor goes to `/login` (also when
      `fetchUser` threw); the guest-only redirect never happens here. */
  lemma {:induction false} ProtectedPageNeedsUser(path: string, checked: bool, user: Option<AuthUser>, outcome: FetchOutcome)
    requires path !in PublicPages
    ensures Expected(path, checked, user, outcome)
      == if UserAfter(checked, user, outcome).Some? then Allow else Redirect("/login")
  {
    GuestOnlyIsPublic();
    assert path != "/login";
    assert path !in GuestOnly;
  }

  /** A navigation. On the server everything passes. On the client the
      session is checked once: `fetchUser` runs only while `checked` is
      false, a throw clears the user, and `checked` is set on every path,
      the throwing one included. */
  method Guard(session: Session, server: bool, path: string, outcome: FetchOutcome) returns (nav: Nav)
    modifies session
    ensures server ==> nav == Allow
    ensures server || old(session.checked) ==>
      session.user == old(session.user) && session.fetches == old(session.fetches)
    ensures server ==> session.checked == old(session.checked)
    ensures !server ==> session.checked
    ensures !server ==> session.fetches == old(session.fetches) + (if old(session.checked) then 0 else 1)
    ensures !server ==> session.user == UserAfter(old(session.checked), old(session.user), outcome)
    ensures !server ==> nav == Expected(path, old(session.checked), old(session.user), outcome)
  {
    if server {
      if path !in PublicPages {
        return Allow;
      }
      return Allow;
    }
    if path in PublicPages {
      if !session.checked {
        var threw := session.FetchUser(outcome);
        if threw {
          session.user := None;
        }
        session.checked := true;
      }
      if session.user.Some? && path in GuestOnly {
        return Redirect("/");
      }
      return Allow;
    }
    if !session.checked {
      var threw := session.FetchUser(outcome);
      if threw {
        session.user := None;
        session.checked := true;
        return Redirect("/login");
      }
      session.checked := true;
    }
    var isLoggedIn := session.user.Some?;
    if !isLoggedIn {
      if path != "/login" {
        return Redirect("/login");
      }
      return Allow;
    }
    if isLoggedIn && path in GuestOnly {
      return Redirect("/");
    }
    nav := Allow;
  }

  /** Two navigations in a row call `fetchUser` at most once between them,
      and the second one does not change the user. */
  method TwoNavigations(session: Session, first: string, second: string, o1: FetchOutcome, o2: FetchOutcome)
    returns (nav1: Nav, nav2: Nav)
    modifies session
    ensures session.fetches <= old(session.fetches) + 1
    ensures session.user == UserAfter(old(session.checked), old(session.user), o1)
  {
    nav1 := Guard(session, false, first, o1);
    nav2 := Guard(session, false, second, o2);
  }
}
