/** The `permission` route middleware (`middleware/permission.ts`): load the
    user if needed, send a visitor to `/login`, let administrators through,
    and otherwise ask for one of the permissions the page declares. */
module PermissionGuard {
  import opened Wrappers
  import opened Text
  import opened AuthState
  import opened Permissions

  /** The page's `permissions` meta: absent, one string (possibly
      `'a|b'`), or a list. */
  datatype PermissionMeta = Absent | AsString(text: string) | AsList(names: seq<string>)

  /** `parts.map(p => p.trim())`. */
  function TrimAll(parts: seq<string>): (r: seq<string>)
    ensures |r| == |parts|
    ensures forall i :: 0 <= i < |parts| ==> r[i] == Trim(parts[i])
  {
    if parts == [] then [] else [Trim(parts[0])] + TrimAll(parts[1..])
  }

  /** The permissions a page asks for, or `None` when the meta is falsy
      (absent or the empty string) and the page is open to every signed-in
      user. A list, even an empty one, is used as it is. */
  function RequiredPermissions(meta: PermissionMeta): (ps: Option<seq<string>>)
    ensures ps.None? <==> meta.Absent? || meta == AsString("")
    ensures meta.AsList? ==> ps == Some(meta.names)
    ensures meta.AsString? && meta.text != "" && '|' !in meta.text ==> ps == Some([meta.text])
    ensures meta.AsString? && '|' in meta.text ==>
      ps.Some? && |ps.value| == |Split(meta.text, '|')| == Count(meta.text, '|') + 1 >= 2
      && (forall i :: 0 <= i < |ps.value| ==> ps.value[i] == Trim(Split(meta.text, '|')[i]))
      && (forall i :: 0 <= i < |ps.value| ==> ps.value[i] == Trim(ps.value[i]))
  {
    match meta
    case Absent => None
    case AsString(s) =>
      if s == "" then None
      else if '|' in s then
        var r := TrimAll(Split(s, '|'));
        assert forall i :: 0 <= i < |r| ==> r[i] == Trim(r[i]) by {
          forall i | 0 <= i < |r| ensures r[i] == Trim(r[i]) {
            TrimIdempotent(Split(s, '|')[i]);
          }
        }
        Some(r)
      else Some([s])
    case AsList(list) => Some(list)
  }

  /** A `'a|b|c'` string of trimmed names asks for exactly those names, in
      order. */
  lemma {:induction false} PipeListRoundTrip(names: seq<string>)
    requires |names| >= 2
    requires forall i :: 0 <= i < |names| ==> '|' !in names[i] && Trim(names[i]) == names[i]
    ensures RequiredPermissions(AsString(Join(names, '|'))) == Some(names)
  {
    var s := Join(names, '|');
    SplitJoin(names, '|');
    assert s == names[0] + ['|'] + Join(names[1..], '|');
    assert s[|names[0]|] == '|';
    var r := TrimAll(Split(s, '|'));
    assert r == names;
  }

  /** The cascade after the user is loaded (`permission.ts:41-80`), on the
      client. */
  function Decide(user: Option<AuthUser>, path: string, meta: PermissionMeta): (nav: Nav)
    ensures nav.Redirect? ==> nav.path != path
    ensures nav.Redirect? ==> nav.path == "/login" || nav.path == "/unauthorized"
  {
    if user.None? then
      if path != "/login" then Redirect("/login") else Allow
    else if IsAdmin(user) then Allow
    else match RequiredPermissions(meta)
      case None => Allow
      case Some(ps) =>
        if !HasAnyPermission(false, user, ps) then
          if path == "/unauthorized" then Allow else Redirect("/unauthorized")
        else Allow
  }

  /** Without a user the visitor goes to `/login`, unless already there. */
  lemma {:induction false} NoUserGoesToLogin(path: string, meta: PermissionMeta)
    ensures Decide(None, path, meta) == (if path == "/login" then Allow else Redirect("/login"))
  {
  }

  /** An administrator is let through whatever the page asks for. */
  lemma {:induction false} AdminAlwaysAllowed(user: Option<AuthUser>, path: string, meta: PermissionMeta)
    requires IsAdmin(user)
    ensures Decide(user, path, meta) == Allow
  {
  }

  /** A signed-in user who is not an administrator is let through exactly
      when the page asks for nothing, the user holds one of the permissions
      asked for, or the page is `/unauthorized`; otherwise the user goes to
      `/unauthorized`. */
  lemma {:induction false} NonAdminNeedsOnePermission(user: Option<AuthUser>, path: string, meta: PermissionMeta)
    requires user.Some? && !IsAdmin(user)
    ensures Decide(user, path, meta) == Allow <==>
      || RequiredPermissions(meta).None?
      || path == "/unauthorized"
      || exists i :: 0 <= i < |RequiredPermissions(meta).value| && HasPermission(false, user, RequiredPermissions(meta).value[i])
    ensures Decide(user, path, meta) != Allow ==> Decide(user, path, meta) == Redirect("/unauthorized")
  {
    if RequiredPermissions(meta).Some? {
      HasAnyPermissionIsSome(false, user, RequiredPermissions(meta).value);
    }
  }

  /** An empty list is truthy: it asks for a permission from an empty list,
      which nobody but an administrator passes. */
  lemma {:induction false} EmptyListDenies(user: Option<AuthUser>, path: string)
    requires user.Some? && !IsAdmin(user) && path != "/unauthorized"
    ensures Decide(user, path, AsList([])) == Redirect("/unauthorized")
  {
  }

  /** With `'a|b'`, holding the trimmed first name is enough. */
  lemma {:induction false} PipeGrantsFirst(user: Option<AuthUser>, path: string, a: string, b: string)
    requires '|' !in a && HasPermission(false, user, Trim(a))
    ensures Decide(user, path, AsString(a + "|" + b)) == Allow
  {
    var s := a + "|" + b;
    assert s[|a|] == '|';
    SplitAtFirst(a, b, '|');
    assert s == a + ['|'] + b;
    var ps := RequiredPermissions(AsString(s)).value;
    assert ps[0] == Trim(a);
    if user.Some? && !IsAdmin(user) {
      HasAnyPermissionIsSome(false, user, ps);
    }
  }

  /** A string without `|` is one name and is not trimmed: a user holding
      only the trimmed name is turned away. */
  lemma {:induction false} SingleNameNotTrimmed(user: Option<AuthUser>, path: string, s: string)
    requires user.Some? && !IsAdmin(user) && path != "/unauthorized"
    requires s != "" && '|' !in s && !HasPermission(false, user, s)
    ensures Decide(user, path, AsString(s)) == Redirect("/unauthorized")
  {
    HasAnyPermissionIsSome(false, user, [s]);
  }

  /** The whole middleware: nothing on the server; on the client
      `fetchUser` is tried once when no user is loaded (an exception is
      swallowed), then `Decide`. */
  method PermissionMiddleware(session: Session, server: bool, path: string, meta: PermissionMeta, outcome: FetchOutcome)
    returns (nav: Nav)
    modifies session`user, session`fetches
    ensures server ==> nav == Allow && session.user == old(session.user) && session.fetches == old(session.fetches)
    ensures !server ==> session.fetches == old(session.fetches) + (if old(session.user).None? then 1 else 0)
    ensures !server ==> session.user == (if old(session.user).None? && outcome.Loaded? then outcome.user else old(session.user))
    ensures !server ==> nav == Decide(session.user, path, meta)
  {
    if server {
      return Allow;
    }
    if session.user.None? {
      var _ := session.FetchUser(outcome);
    }
    nav := Decide(session.user, path, meta);
  }
}
