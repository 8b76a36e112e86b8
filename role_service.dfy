/** RoleService: creating and listing roles and permissions. */
module RoleService {
  import opened Entities
  import opened Store

  /** `{ name, permissions }`: the permissions are ids. */
  datatype CreateRoleDto = CreateRoleDto(name: string, permissions: seq<nat>)

  datatype CreatePermissionDto = CreatePermissionDto(name: string)

  /** The result of a save together with the table it leaves. */
  datatype RoleWrite = RoleWrite(result: Result<Role, Error>, roles: map<nat, Role>, nextRoleId: nat)

  datatype PermissionWrite = PermissionWrite(result: Permission, permissions: map<nat, Permission>, nextPermissionId: nat)

  function PermissionId(p: Permission): (id: nat) { p.id }

  /** Some stored role already has `name`: the case in which the unique `name` column
      refuses a save. */
  predicate RoleNameTaken(roles: map<nat, Role>, name: string): (taken: bool)
    ensures taken <==> exists role :: role in roles.Values && role.name == name
  {
    exists k | k in roles :: roles[k].name == name
  }

  /** createRole: the permissions are looked up by id, then the role is saved; the unique
      `name` column refuses a second role of the same name. */
  function RoleCreated(roles: map<nat, Role>, nextRoleId: nat, permissions: map<nat, Permission>, dto: CreateRoleDto)
    : (w: RoleWrite)
    requires SerialKeys(roles, nextRoleId)
    ensures w.result.Err? <==> exists k :: k in roles && roles[k].name == dto.name
    ensures w.result.Err? ==> w.result.error == UniqueViolation("name") && w.roles == roles && w.nextRoleId == nextRoleId
    ensures w.result.Ok? ==>
      && nextRoleId !in roles
      && w.result.value.id == nextRoleId && w.result.value.name == dto.name
      && w.roles == roles[nextRoleId := w.result.value] && w.nextRoleId == nextRoleId + 1
    ensures RolesValid(roles, nextRoleId) ==> RolesValid(w.roles, w.nextRoleId)
  {
    var foundPermissions := RowsWithIds(permissions, dto.permissions);
    var role := Role(nextRoleId, dto.name, foundPermissions);
    if RoleNameTaken(roles, dto.name) then RoleWrite(Err(UniqueViolation("name")), roles, nextRoleId)
    else RoleWrite(Ok(role), roles[nextRoleId := role], nextRoleId + 1)
  }

  /** The new role holds exactly the stored permissions whose id the request lists; ids
      with no stored permission are dropped. */
  lemma CreatedRolePermissionsExact(roles: map<nat, Role>, nextRoleId: nat, permissions: map<nat, Permission>,
                                    nextPermissionId: nat, dto: CreateRoleDto)
    requires SerialKeys(roles, nextRoleId) && PermissionsValid(permissions, nextPermissionId)
    requires RoleCreated(roles, nextRoleId, permissions, dto).result.Ok?
    ensures forall p :: (p in RoleCreated(roles, nextRoleId, permissions, dto).result.value.permissions)
                          <==> (p in permissions.Values && p.id in dto.permissions)
  {
    RowsWithIdsExact(permissions, dto.permissions, PermissionId);
  }

  /** A second createRole with the same name fails and changes nothing. */
  lemma CreateRoleTwiceFails(roles: map<nat, Role>, nextRoleId: nat, permissions: map<nat, Permission>, dto: CreateRoleDto)
    requires SerialKeys(roles, nextRoleId)
    requires RoleCreated(roles, nextRoleId, permissions, dto).result.Ok?
    ensures var w := RoleCreated(roles, nextRoleId, permissions, dto);
      RoleCreated(w.roles, w.nextRoleId, permissions, dto) == RoleWrite(Err(UniqueViolation("name")), w.roles, w.nextRoleId)
  {
    var w := RoleCreated(roles, nextRoleId, permissions, dto);
    assert w.roles[nextRoleId].name == dto.name;
  }

  /** createPermission: one permission built from the dto is saved. */
  function PermissionCreated(permissions: map<nat, Permission>, nextPermissionId: nat, dto: CreatePermissionDto)
    : (w: PermissionWrite)
    requires SerialKeys(permissions, nextPermissionId)
    ensures nextPermissionId !in permissions
    ensures w.result.name == dto.name
    ensures w.permissions == permissions[nextPermissionId := w.result] && w.nextPermissionId == nextPermissionId + 1
    ensures PermissionsValid(permissions, nextPermissionId) ==> PermissionsValid(w.permissions, w.nextPermissionId)
  {
    var permission := Permission(nextPermissionId, dto.name);
    PermissionWrite(permission, permissions[nextPermissionId := permission], nextPermissionId + 1)
  }

  /** findAllRoles: every stored role, each with its permissions. */
  function FindAllRoles(roles: map<nat, Role>): (r: set<Role>)
    ensures forall role :: role in r <==> exists k :: k in roles && roles[k] == role
  {
    roles.Values
  }

  /** findAllPermissions: every stored permission. */
  function FindAllPermissions(permissions: map<nat, Permission>): (r: set<Permission>)
    ensures forall p :: p in r <==> exists k :: k in permissions && permissions[k] == p
  {
    permissions.Values
  }

  /** A created role is listed by findAllRoles with the permissions it was given, and the
      roles listed before are listed still. */
  lemma CreatedRoleIsListed(roles: map<nat, Role>, nextRoleId: nat, permissions: map<nat, Permission>, dto: CreateRoleDto)
    requires SerialKeys(roles, nextRoleId)
    requires RoleCreated(roles, nextRoleId, permissions, dto).result.Ok?
    ensures var w := RoleCreated(roles, nextRoleId, permissions, dto);
      FindAllRoles(w.roles) == FindAllRoles(roles) + {w.result.value}
  {
    var w := RoleCreated(roles, nextRoleId, permissions, dto);
    forall role | role in FindAllRoles(roles)
      ensures role in FindAllRoles(w.roles)
    {
      var k :| k in roles && roles[k] == role;
      assert w.roles[k] == role;
    }
    assert w.roles[nextRoleId] == w.result.value;
  }

  method CreateRole(db: Database, dto: CreateRoleDto) returns (r: Result<Role, Error>)
    requires db.Valid()
    modifies db`roles, db`nextRoleId
    ensures db.Valid()
    ensures RoleCreated(old(db.roles), old(db.nextRoleId), db.permissions, dto) == RoleWrite(r, db.roles, db.nextRoleId)
  {
    var foundPermissions := RowsWithIds(db.permissions, dto.permissions);
    var role := Role(db.nextRoleId, dto.name, foundPermissions);
    if RoleNameTaken(db.roles, dto.name) {
      return Err(UniqueViolation("name"));
    }
    db.roles := db.roles[role.id := role];
    db.nextRoleId := db.nextRoleId + 1;
    r := Ok(role);
  }

  method CreatePermission(db: Database, dto: CreatePermissionDto) returns (r: Permission)
    requires db.Valid()
    modifies db`permissions, db`nextPermissionId
    ensures db.Valid()
    ensures PermissionCreated(old(db.permissions), old(db.nextPermissionId), dto)
         == PermissionWrite(r, db.permissions, db.nextPermissionId)
  {
    var permission := Permission(db.nextPermissionId, dto.name);
    db.permissions := db.permissions[permission.id := permission];
    db.nextPermissionId := db.nextPermissionId + 1;
    r := permission;
  }
}
