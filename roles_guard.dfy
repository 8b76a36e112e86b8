/** RolesGuard.canActivate: a route's required roles against the names of the user's
    roles. Only its behaviour under test is known. */
module RolesGuard {
  import opened Entities

  function RoleNames(roles: set<Role>): (names: set<string>) {
    set r | r in roles :: r.name
  }

  /** `requiredRoles` is the route's `@Roles(...)` list, None when none is declared;
      `userRoles` are `req.user.roles`. No requirement (absent or empty) allows; otherwise
      holding any one required role allows. */
  function CanActivate(requiredRoles: Option<seq<string>>, userRoles: set<Role>): (allowed: bool)
    ensures allowed <==>
              requiredRoles.None? || requiredRoles.value == [] ||
              exists name :: name in requiredRoles.value && name in RoleNames(userRoles)
  {
    requiredRoles.None? || |requiredRoles.value| == 0 ||
    exists r :: r in userRoles && r.name in requiredRoles.value
  }

  /** The match is OR: one required role held is enough, whatever else is required. */
  lemma AnyRequiredRoleSuffices(requiredRoles: seq<string>, userRoles: set<Role>, held: Role)
    requires held in userRoles && held.name in requiredRoles
    ensures CanActivate(Some(requiredRoles), userRoles)
  {
  }

  /** A user without roles is refused whenever some role is required. */
  lemma NoRolesDenied(requiredRoles: seq<string>)
    requires requiredRoles != []
    ensures !CanActivate(Some(requiredRoles), {})
  {
  }

  /** Roles are matched by name only: users whose roles carry the same names get the same
      answer, whatever the roles' ids and permissions. */
  lemma MatchedByName(requiredRoles: Option<seq<string>>, roles1: set<Role>, roles2: set<Role>)
    requires RoleNames(roles1) == RoleNames(roles2)
    ensures CanActivate(requiredRoles, roles1) == CanActivate(requiredRoles, roles2)
  {
  }

  /** The cases the guard is tested with, roles given by name. */
  lemma TestedCases(admin: Role, editor: Role, user: Role)
    requires admin.name == "admin" && editor.name == "editor" && user.name == "user"
    ensures CanActivate(None, {})
    ensures CanActivate(Some(["admin"]), {admin})
    ensures !CanActivate(Some(["admin"]), {user})
    ensures CanActivate(Some(["admin", "editor"]), {user, editor})
    ensures !CanActivate(Some(["admin"]), {})
  {
    assert "user" != "admin";
  }
}
