/** Role and permission checks on the signed-in user (`usePermissions.ts`).
    `import.meta.server` is the parameter `server`. */
module Permissions {
  import opened Wrappers
  import opened AuthState

  // ---------------------------------------------------------------------------
  // `some` and `every` over a list of names
  // ---------------------------------------------------------------------------

  /** `wanted.some(w => held.includes(w))`. */
  function AnyIn(wanted: seq<string>, held: seq<string>): (b: bool)
    ensures b ==> wanted != []
  {
    wanted != [] && (wanted[0] in held || AnyIn(wanted[1..], held))
  }

  /** `wanted.every(w => held.includes(w))`. */
  function AllIn(wanted: seq<string>, held: seq<string>): bool {
    wanted == [] || (wanted[0] in held && AllIn(wanted[1..], held))
  }

  lemma {:induction false} AnyInExists(wanted: seq<string>, held: seq<string>)
    ensures AnyIn(wanted, held) <==> exists i :: 0 <= i < |wanted| && wanted[i] in held
  {
    if wanted != [] {
      AnyInExists(wanted[1..], held);
      if AnyIn(wanted[1..], held) {
        var i :| 0 <= i < |wanted[1..]| && wanted[1..][i] in held;
        assert wanted[i + 1] in held;
      }
      if exists i :: 0 <= i < |wanted| && wanted[i] in held {
        var i :| 0 <= i < |wanted| && wanted[i] in held;
        if i > 0 {
          assert wanted[1..][i - 1] in held;
        }
      }
    }
  }

  lemma {:induction false} AllInForall(wanted: seq<string>, held: seq<string>)
    ensures AllIn(wanted, held) <==> forall i :: 0 <= i < |wanted| ==> wanted[i] in held
  {
    if wanted != [] {
      AllInForall(wanted[1..], held);
      if forall i :: 0 <= i < |wanted| ==> wanted[i] in held {
        forall i | 0 <= i < |wanted[1..]| ensures wanted[1..][i] in held {
          assert wanted[1..][i] == wanted[i + 1];
        }
      }
      if AllIn(wanted, held) {
        forall i | 0 <= i < |wanted| ensures wanted[i] in held {
          if i > 0 {
            assert wanted[i] == wanted[1..][i - 1];
          }
        }
      }
    }
  }

  // ---------------------------------------------------------------------------
  // Roles
  // ---------------------------------------------------------------------------

  /** The user's role list, when there is a user and it has one. */
  function RoleList(user: Option<AuthUser>): Option<seq<string>> {
    if user.Some? then user.value.roles else None
  }

  /** `hasRole(role)`. */
  function HasRole(user: Option<AuthUser>, role: string): (b: bool)
    ensures b ==> RoleList(user).Some?
  {
    match RoleList(user)
    case None => false
    case Some(held) => role in held
  }

  /** `hasAnyRole(roles)`. */
  function HasAnyRole(user: Option<AuthUser>, roles: seq<string>): (b: bool)
    ensures b ==> roles != []
  {
    match RoleList(user)
    case None => false
    case Some(held) => if roles == [] then false else AnyIn(roles, held)
  }

  /** `hasAllRoles(roles)`. */
  function HasAllRoles(user: Option<AuthUser>, roles: seq<string>): (b: bool)
    ensures b ==> roles != [] && RoleList(user).Some?
  {
    match RoleList(user)
    case None => false
    case Some(held) => if roles == [] then false else AllIn(roles, held)
  }

  /** An empty list is never satisfied, even by a user who holds roles:
      there is no vacuous truth. */
  lemma {:induction false} EmptyRoleListFails(user: Option<AuthUser>)
    ensures !HasAnyRole(user, []) && !HasAllRoles(user, [])
  {
  }

  /** For a non-empty list, `hasAnyRole` is "some listed role passes
      `hasRole`". */
  lemma {:induction false} HasAnyRoleIsSome(user: Option<AuthUser>, roles: seq<string>)
    ensures HasAnyRole(user, roles) <==> exists i :: 0 <= i < |roles| && HasRole(user, roles[i])
  {
    if RoleList(user).Some? {
      AnyInExists(roles, RoleList(user).value);
    }
  }

  /** For a non-empty list, `hasAllRoles` is "every listed role passes
      `hasRole`". */
  lemma {:induction false} HasAllRolesIsEvery(user: Option<AuthUser>, roles: seq<string>)
    ensures HasAllRoles(user, roles) <==> roles != [] && forall i :: 0 <= i < |roles| ==> HasRole(user, roles[i])
  {
    if RoleList(user).Some? {
      AllInForall(roles, RoleList(user).value);
    } else if roles != [] {
      assert !HasRole(user, roles[0]);
    }
  }

  /** `isSuperAdmin`. */
  function IsSuperAdmin(user: Option<AuthUser>): (b: bool)
    ensures b <==> "super_admin" in Roles(user)
  {
    HasRole(user, "super_admin")
  }

  /** `isAdmin`: `admin` or `super_admin`; every super administrator is an
      administrator. */
  function IsAdmin(user: Option<AuthUser>): (b: bool)
    ensures IsSuperAdmin(user) ==> b
    ensures b <==> "admin" in Roles(user) || "super_admin" in Roles(user)
  {
    HasRole(user, "admin") || HasRole(user, "super_admin")
  }

  /** `roles`: the user's list, or `[]` when the user or the list is
      missing. */
  function Roles(user: Option<AuthUser>): (rs: seq<string>)
    ensures forall r :: r in rs <==> HasRole(user, r)
    ensures RoleList(user).Some? ==> rs == RoleList(user).value
  {
    RoleList(user).GetOr([])
  }

  // ---------------------------------------------------------------------------
  // Permissions
  // ---------------------------------------------------------------------------

  /** The user's permission list, when there is a user and it has one. */
  function PermissionList(user: Option<AuthUser>): Option<seq<string>> {
    if user.Some? then user.value.permissions else None
  }

  /** `hasPermission(permission)`: always false while rendering on the
      server. */
  function HasPermission(server: bool, user: Option<AuthUser>, permission: string): (b: bool)
    ensures b ==> !server && PermissionList(user).Some?
  {
    if server then false
    else match PermissionList(user)
      case None => false
      case Some(held) => permission in held
  }

  /** `hasAnyPermission(permissions)`: always false on the server and for an
      empty list. */
  function HasAnyPermission(server: bool, user: Option<AuthUser>, permissions: seq<string>): (b: bool)
    ensures b ==> !server && permissions != []
  {
    if server then false
    else match PermissionList(user)
      case None => false
      case Some(held) => if permissions == [] then false else AnyIn(permissions, held)
  }

  /** `hasAllPermissions(permissions)`: false for an empty list, but with no
      server check. */
  function HasAllPermissions(user: Option<AuthUser>, permissions: seq<string>): (b: bool)
    ensures b ==> permissions != [] && PermissionList(user).Some?
  {
    match PermissionList(user)
    case None => false
    case Some(held) => if permissions == [] then false else AllIn(permissions, held)
  }

  /** On the client, `hasAnyPermission` is "some listed permission passes
      `hasPermission`". */
  lemma {:induction false} HasAnyPermissionIsSome(server: bool, user: Option<AuthUser>, permissions: seq<string>)
    ensures HasAnyPermission(server, user, permissions)
        <==> exists i :: 0 <= i < |permissions| && HasPermission(server, user, permissions[i])
  {
    if !server && PermissionList(user).Some? {
      AnyInExists(permissions, PermissionList(user).value);
    }
  }

  /** `hasAllPermissions` is "every listed permission is held", for a
      non-empty list. */
  lemma {:induction false} HasAllPermissionsIsEvery(user: Option<AuthUser>, permissions: seq<string>)
    ensures HasAllPermissions(user, permissions)
        <==> permissions != [] && forall i :: 0 <= i < |permissions| ==> HasPermission(false, user, permissions[i])
  {
    if PermissionList(user).Some? {
      AllInForall(permissions, PermissionList(user).value);
    } else if permissions != [] {
      assert !HasPermission(false, user, permissions[0]);
    }
  }

  /** The server asymmetry: on the server `hasPermission` and
      `hasAnyPermission` deny a user who holds every permission asked for,
      while `hasAllPermissions` grants it. */
  lemma {:induction false} ServerAsymmetry(u: AuthUser, permissions: seq<string>)
    requires u.permissions == Some(permissions) && permissions != []
    ensures !HasPermission(true, Some(u), permissions[0])
    ensures !HasAnyPermission(true, Some(u), permissions)
    ensures HasAllPermissions(Some(u), permissions)
  {
    AllInForall(permissions, permissions);
  }

  /** On the client, holding all of a non-empty list implies holding one of
      it. */
  lemma {:induction false} AllPermissionsImpliesAny(user: Option<AuthUser>, permissions: seq<string>)
    requires HasAllPermissions(user, permissions)
    ensures HasAnyPermission(false, user, permissions)
  {
    HasAllPermissionsIsEvery(user, permissions);
    assert HasPermission(false, user, permissions[0]);
    HasAnyPermissionIsSome(false, user, permissions);
  }

  /** The same for roles. */
  lemma {:induction false} AllRolesImpliesAny(user: Option<AuthUser>, roles: seq<string>)
    requires HasAllRoles(user, roles)
    ensures HasAnyRole(user, roles)
  {
    HasAllRolesIsEvery(user, roles);
    assert HasRole(user, roles[0]);
    HasAnyRoleIsSome(user, roles);
  }

  /** `permissions`: the user's list, or `[]` when the user or the list is
      missing; its members are exactly what `hasPermission` grants on the
      client. */
  function Permissions(user: Option<AuthUser>): (ps: seq<string>)
    ensures forall p :: p in ps <==> HasPermission(false, user, p)
    ensures PermissionList(user).Some? ==> ps == PermissionList(user).value
  {
    PermissionList(user).GetOr([])
  }
}
