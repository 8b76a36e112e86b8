/** SeedService: the bootstrap run at start-up. It completes the permission catalog, adds
    the four standard roles that are missing and creates the default admin user once. */
module SeedService {
  import opened Entities
  import opened Store
  import UsersService

  const PermissionCatalog: seq<string> := [
    "CREATE_EVENT", "EDIT_EVENT", "DELETE_EVENT", "VIEW_EVENT", "CREATE_TASK",
    "EDIT_TASK", "DELETE_TASK", "VIEW_TASK", "ASSIGN_TASK", "MANAGE_USERS"]

  const EventManagerPermissions: seq<string> := [
    "CREATE_EVENT", "EDIT_EVENT", "DELETE_EVENT", "VIEW_EVENT",
    "CREATE_TASK", "EDIT_TASK", "DELETE_TASK", "VIEW_TASK"]

  const TaskManagerPermissions: seq<string> := ["CREATE_TASK", "EDIT_TASK", "DELETE_TASK", "VIEW_TASK", "ASSIGN_TASK"]

  const ViewerPermissions: seq<string> := ["VIEW_EVENT", "VIEW_TASK"]

  const RoleCatalogNames: seq<string> := ["Admin", "Event Manager", "Task Manager", "Viewer"]

  const AdminFirstName := "John"
  const AdminLastName := "Doe"
  const AdminEmail := "testuser@yopmail.com"
  const AdminPassword := "password"

  /** The three tables the bootstrap reads and writes. */
  datatype SeedTables = SeedTables(
    permissions: map<nat, Permission>,
    nextPermissionId: nat,
    roles: map<nat, Role>,
    nextRoleId: nat,
    users: map<Uuid, User>)

  ghost predicate TablesValid(t: SeedTables) {
    PermissionsValid(t.permissions, t.nextPermissionId) && RolesValid(t.roles, t.nextRoleId) && UsersValid(t.users)
  }

  function TablesOf(db: Database): (t: SeedTables)
    reads db
  {
    SeedTables(db.permissions, db.nextPermissionId, db.roles, db.nextRoleId, db.users)
  }

  function PermissionName(p: Permission): (name: string) { p.name }

  function RoleName(r: Role): (name: string) { r.name }

  /** Some row of `rows` is named `n`. */
  ghost predicate Stores<V>(rows: map<nat, V>, name: V -> string, n: string) {
    exists k :: k in rows && name(rows[k]) == n
  }

  ghost predicate HasPermissionNamed(permissions: map<nat, Permission>, n: string) {
    Stores(permissions, PermissionName, n)
  }

  ghost predicate HasRoleNamed(roles: map<nat, Role>, n: string) {
    Stores(roles, RoleName, n)
  }

  // ---------------------------------------------------------------------------
  // The step both seedPermissions and seedRoles take: query which names of a catalog are
  // stored, filter the catalog to the rest, and save those when there are any.

  /** The names of `wanted` that some row carries: what `find({ where: { name: In(wanted) } })`
      returns, reduced to the names. */
  function StoredNames<V>(rows: map<nat, V>, name: V -> string, wanted: seq<string>): (names: set<string>)
    ensures forall n :: n in names <==> n in wanted && Stores(rows, name, n)
  {
    set k | k in rows && name(rows[k]) in wanted :: name(rows[k])
  }

  ghost predicate DistinctKeys<T>(xs: seq<T>, key: T -> string) {
    forall i, j :: 0 <= i < j < |xs| ==> key(xs[i]) != key(xs[j])
  }

  /** `xs.filter((x) => !present.includes(key(x)))` */
  function Without<T>(xs: seq<T>, key: T -> string, present: set<string>): (kept: seq<T>)
    ensures |kept| <= |xs|
  {
    if xs == [] then []
    else if key(xs[0]) in present then Without(xs[1..], key, present)
    else [xs[0]] + Without(xs[1..], key, present)
  }

  /** The filter keeps exactly the elements whose key is not among `present`, keeps keys
      distinct, and is empty when every key is present. */
  lemma {:induction false} WithoutFacts<T(!new)>(xs: seq<T>, key: T -> string, present: set<string>)
    ensures forall x :: x in Without(xs, key, present) <==> x in xs && key(x) !in present
    ensures DistinctKeys(xs, key) ==> DistinctKeys(Without(xs, key, present), key)
    ensures (forall x :: x in xs ==> key(x) in present) ==> Without(xs, key, present) == []
  {
    if xs != [] {
      var rest := Without(xs[1..], key, present);
      WithoutFacts(xs[1..], key, present);
      assert forall x :: x in xs <==> x == xs[0] || x in xs[1..];
      assert DistinctKeys(xs, key) ==> DistinctKeys(xs[1..], key);
      if key(xs[0]) !in present {
        assert DistinctKeys(xs, key) ==> forall x :: x in rest ==> key(x) != key(xs[0]);
      }
    }
  }

  /** The table and its sequence counter after saving the catalog entries whose key is not
      among `present`; the rows already there are kept. */
  function AddMissing<D(!new), V>(rows: map<nat, V>, nextId: nat, catalog: seq<D>, key: D -> string,
                                  present: set<string>, build: (nat, D) -> V): (r: (map<nat, V>, nat))
    requires SerialKeys(rows, nextId)
    ensures forall k :: k in rows ==> k in r.0 && r.0[k] == rows[k]
    ensures SerialKeys(r.0, r.1)
  {
    var drafts := Without(catalog, key, present);
    if |drafts| > 0 then (InsertAll(rows, nextId, drafts, build), nextId + |drafts|)
    else (rows, nextId)
  }

  /** Every added row is built from a catalog entry whose key was not present. */
  lemma AddMissingAdded<D(!new), V>(rows: map<nat, V>, nextId: nat, catalog: seq<D>, key: D -> string,
                                    present: set<string>, build: (nat, D) -> V, k: nat) returns (d: D)
    requires SerialKeys(rows, nextId)
    requires k in AddMissing(rows, nextId, catalog, key, present, build).0 && k !in rows
    ensures d in catalog && key(d) !in present
    ensures AddMissing(rows, nextId, catalog, key, present, build).0[k] == build(k, d)
  {
    var drafts := Without(catalog, key, present);
    WithoutFacts(catalog, key, present);
    InsertedRow(rows, nextId, drafts, build, k);
    d := drafts[k - nextId];
  }

  /** Every catalog entry whose key was not present is added under some new id. */
  lemma AddMissingCovers<D(!new), V>(rows: map<nat, V>, nextId: nat, catalog: seq<D>, key: D -> string,
                                     present: set<string>, build: (nat, D) -> V, d: D) returns (k: nat)
    requires SerialKeys(rows, nextId)
    requires d in catalog && key(d) !in present
    ensures k in AddMissing(rows, nextId, catalog, key, present, build).0 && k !in rows
    ensures AddMissing(rows, nextId, catalog, key, present, build).0[k] == build(k, d)
  {
    var drafts := Without(catalog, key, present);
    WithoutFacts(catalog, key, present);
    var i :| 0 <= i < |drafts| && drafts[i] == d;
    k := nextId + i;
  }

  /** A catalog without repeated keys adds no name twice. */
  lemma AddMissingDistinct<D(!new), V>(rows: map<nat, V>, nextId: nat, catalog: seq<D>, key: D -> string,
                                       present: set<string>, build: (nat, D) -> V, name: V -> string, a: nat, b: nat)
    requires SerialKeys(rows, nextId) && DistinctKeys(catalog, key)
    requires forall id, d :: name(build(id, d)) == key(d)
    requires a in AddMissing(rows, nextId, catalog, key, present, build).0 && a !in rows
    requires b in AddMissing(rows, nextId, catalog, key, present, build).0 && b !in rows
    requires a != b
    ensures name(AddMissing(rows, nextId, catalog, key, present, build).0[a])
         != name(AddMissing(rows, nextId, catalog, key, present, build).0[b])
  {
    var drafts := Without(catalog, key, present);
    WithoutFacts(catalog, key, present);
    InsertedRow(rows, nextId, drafts, build, a);
    InsertedRow(rows, nextId, drafts, build, b);
    var i, j := a - nextId, b - nextId;
    assert key(drafts[i]) != key(drafts[j]);
  }

  /** When every catalog key is present nothing is saved. */
  lemma AddMissingNoOp<D(!new), V>(rows: map<nat, V>, nextId: nat, catalog: seq<D>, key: D -> string,
                                   present: set<string>, build: (nat, D) -> V)
    requires SerialKeys(rows, nextId)
    requires forall d :: d in catalog ==> key(d) in present
    ensures AddMissing(rows, nextId, catalog, key, present, build) == (rows, nextId)
  {
    WithoutFacts(catalog, key, present);
  }

  // ---------------------------------------------------------------------------
  // seedPermissions

  function NewPermission(id: nat, name: string): (p: Permission) { Permission(id, name) }

  function Itself(s: string): (r: string) { s }

  lemma PermissionCatalogDistinct()
    ensures DistinctKeys(PermissionCatalog, Itself)
  {
  }

  /** The tables after seedPermissions: the catalog names not stored yet are saved. */
  function SeededPermissions(t: SeedTables): (t': SeedTables)
    requires SerialKeys(t.permissions, t.nextPermissionId)
    ensures t'.roles == t.roles && t'.nextRoleId == t.nextRoleId && t'.users == t.users
    ensures forall k :: k in t.permissions ==> k in t'.permissions && t'.permissions[k] == t.permissions[k]
    ensures SerialKeys(t'.permissions, t'.nextPermissionId)
  {
    var existingPermissionNames := StoredNames(t.permissions, PermissionName, PermissionCatalog);
    var (permissions, nextId) :=
      AddMissing(t.permissions, t.nextPermissionId, PermissionCatalog, Itself, existingPermissionNames, NewPermission);
    t.(permissions := permissions, nextPermissionId := nextId)
  }

  /** seedPermissions keeps the permission ids consistent with their keys and counter. */
  lemma SeededPermissionsValid(t: SeedTables)
    requires PermissionsValid(t.permissions, t.nextPermissionId)
    ensures PermissionsValid(SeededPermissions(t).permissions, SeededPermissions(t).nextPermissionId)
  {
    var t' := SeededPermissions(t);
    var present := StoredNames(t.permissions, PermissionName, PermissionCatalog);
    forall k | k in t'.permissions && k !in t.permissions
      ensures t'.permissions[k].id == k
    {
      var d := AddMissingAdded(t.permissions, t.nextPermissionId, PermissionCatalog, Itself, present, NewPermission, k);
    }
  }

  /** Every row seedPermissions adds has a catalog name that no stored row had, and no name
      is added twice. */
  lemma SeededPermissionsAddOnlyMissing(t: SeedTables)
    requires PermissionsValid(t.permissions, t.nextPermissionId)
    ensures var t' := SeededPermissions(t);
      && (forall k :: k in t'.permissions && k !in t.permissions ==>
            t'.permissions[k].name in PermissionCatalog && !HasPermissionNamed(t.permissions, t'.permissions[k].name))
      && (forall a, b :: (a in t'.permissions && b in t'.permissions && a !in t.permissions && b !in t.permissions &&
            t'.permissions[a].name == t'.permissions[b].name) ==> a == b)
  {
    var t' := SeededPermissions(t);
    var present := StoredNames(t.permissions, PermissionName, PermissionCatalog);
    forall k | k in t'.permissions && k !in t.permissions
      ensures t'.permissions[k].name in PermissionCatalog
      ensures !HasPermissionNamed(t.permissions, t'.permissions[k].name)
    {
      var d := AddMissingAdded(t.permissions, t.nextPermissionId, PermissionCatalog, Itself, present, NewPermission, k);
    }
    PermissionCatalogDistinct();
    forall a, b | a in t'.permissions && b in t'.permissions && a !in t.permissions && b !in t.permissions && a != b
      ensures t'.permissions[a].name != t'.permissions[b].name
    {
      AddMissingDistinct(t.permissions, t.nextPermissionId, PermissionCatalog, Itself, present, NewPermission,
                         PermissionName, a, b);
    }
  }

  /** After seedPermissions every catalog name is stored. */
  lemma SeededPermissionsComplete(t: SeedTables)
    requires SerialKeys(t.permissions, t.nextPermissionId)
    ensures forall n :: n in PermissionCatalog ==> HasPermissionNamed(SeededPermissions(t).permissions, n)
  {
    var t' := SeededPermissions(t);
    var present := StoredNames(t.permissions, PermissionName, PermissionCatalog);
    forall n | n in PermissionCatalog
      ensures HasPermissionNamed(t'.permissions, n)
    {
      if n !in present {
        var k := AddMissingCovers(t.permissions, t.nextPermissionId, PermissionCatalog, Itself, present, NewPermission, n);
        assert PermissionName(t'.permissions[k]) == n;
      } else {
        var k :| k in t.permissions && PermissionName(t.permissions[k]) == n;
        assert PermissionName(t'.permissions[k]) == n;
      }
    }
  }

  /** When the whole catalog is stored, seedPermissions saves nothing. */
  lemma SeededPermissionsNoOp(t: SeedTables)
    requires SerialKeys(t.permissions, t.nextPermissionId)
    requires forall n :: n in PermissionCatalog ==> HasPermissionNamed(t.permissions, n)
    ensures SeededPermissions(t) == t
  {
    var present := StoredNames(t.permissions, PermissionName, PermissionCatalog);
    AddMissingNoOp(t.permissions, t.nextPermissionId, PermissionCatalog, Itself, present, NewPermission);
  }

  // ---------------------------------------------------------------------------
  // seedRoles

  /** A role before it is saved: its name and the permissions it is given. */
  datatype RoleDraft = RoleDraft(name: string, permissions: set<Permission>)

  function DraftName(d: RoleDraft): (name: string) { d.name }

  function NewRole(id: nat, d: RoleDraft): (r: Role) { Role(id, d.name, d.permissions) }

  /** `permissions.filter((p) => names.includes(p.name))` */
  function PermissionsNamed(all: set<Permission>, names: seq<string>): (r: set<Permission>)
    ensures forall p :: p in r <==> p in all && p.name in names
  {
    set p | p in all && p.name in names
  }

  /** The four roles, given every stored permission `all`. */
  function RoleCatalog(all: set<Permission>): (drafts: seq<RoleDraft>)
    ensures |drafts| == |RoleCatalogNames|
    ensures forall i :: 0 <= i < |drafts| ==> drafts[i].name == RoleCatalogNames[i]
  {
    [ RoleDraft("Admin", all),
      RoleDraft("Event Manager", PermissionsNamed(all, EventManagerPermissions)),
      RoleDraft("Task Manager", PermissionsNamed(all, TaskManagerPermissions)),
      RoleDraft("Viewer", PermissionsNamed(all, ViewerPermissions)) ]
  }

  lemma RoleCatalogDistinct(all: set<Permission>)
    ensures DistinctKeys(RoleCatalog(all), DraftName)
  {
  }

  /** The tables after seedRoles: the standard roles not stored yet are saved, each with
      the stored permissions it is given. */
  function SeededRoles(t: SeedTables): (t': SeedTables)
    requires SerialKeys(t.roles, t.nextRoleId)
    ensures t'.permissions == t.permissions && t'.nextPermissionId == t.nextPermissionId && t'.users == t.users
    ensures forall k :: k in t.roles ==> k in t'.roles && t'.roles[k] == t.roles[k]
    ensures SerialKeys(t'.roles, t'.nextRoleId)
  {
    var permissions := t.permissions.Values;
    var existingRoleNames := StoredNames(t.roles, RoleName, RoleCatalogNames);
    var (roles, nextId) :=
      AddMissing(t.roles, t.nextRoleId, RoleCatalog(permissions), DraftName, existingRoleNames, NewRole);
    t.(roles := roles, nextRoleId := nextId)
  }

  /** Each role seedRoles adds is a standard role that was missing; Admin gets every stored
      permission (catalog or not), the others exactly the stored permissions of their lists. */
  lemma SeededRoleGrants(t: SeedTables, k: nat)
    requires SerialKeys(t.roles, t.nextRoleId)
    requires k in SeededRoles(t).roles && k !in t.roles
    ensures var role := SeededRoles(t).roles[k];
      && role.id == k
      && role.name in RoleCatalogNames && !HasRoleNamed(t.roles, role.name)
      && (role.name == "Admin" ==> role.permissions == t.permissions.Values)
      && (role.name == "Event Manager" ==>
            forall p :: p in role.permissions <==> p in t.permissions.Values && p.name in EventManagerPermissions)
      && (role.name == "Task Manager" ==>
            forall p :: p in role.permissions <==> p in t.permissions.Values && p.name in TaskManagerPermissions)
      && (role.name == "Viewer" ==>
            forall p :: p in role.permissions <==> p in t.permissions.Values && p.name in ViewerPermissions)
  {
    var catalog := RoleCatalog(t.permissions.Values);
    var present := StoredNames(t.roles, RoleName, RoleCatalogNames);
    var d := AddMissingAdded(t.roles, t.nextRoleId, catalog, DraftName, present, NewRole, k);
  }

  /** seedRoles keeps the role table valid: ids consistent and names unique. */
  lemma SeededRolesValid(t: SeedTables)
    requires RolesValid(t.roles, t.nextRoleId)
    ensures RolesValid(SeededRoles(t).roles, SeededRoles(t).nextRoleId)
  {
    var t' := SeededRoles(t);
    var catalog := RoleCatalog(t.permissions.Values);
    var present := StoredNames(t.roles, RoleName, RoleCatalogNames);
    forall k | k in t'.roles && k !in t.roles
      ensures t'.roles[k].id == k && !HasRoleNamed(t.roles, t'.roles[k].name)
    {
      SeededRoleGrants(t, k);
    }
    RoleCatalogDistinct(t.permissions.Values);
    forall a, b | a in t'.roles && b in t'.roles && a != b
      ensures t'.roles[a].name != t'.roles[b].name
    {
      if a !in t.roles && b !in t.roles {
        AddMissingDistinct(t.roles, t.nextRoleId, catalog, DraftName, present, NewRole, RoleName, a, b);
      } else if a !in t.roles {
        assert RoleName(t.roles[b]) == t'.roles[b].name;
      } else if b !in t.roles {
        assert RoleName(t.roles[a]) == t'.roles[a].name;
      }
    }
  }

  /** After seedRoles every standard role name is stored. */
  lemma SeededRolesComplete(t: SeedTables)
    requires SerialKeys(t.roles, t.nextRoleId)
    ensures forall n :: n in RoleCatalogNames ==> HasRoleNamed(SeededRoles(t).roles, n)
  {
    var t' := SeededRoles(t);
    var catalog := RoleCatalog(t.permissions.Values);
    var present := StoredNames(t.roles, RoleName, RoleCatalogNames);
    forall n | n in RoleCatalogNames
      ensures HasRoleNamed(t'.roles, n)
    {
      if n !in present {
        var c :| 0 <= c < |RoleCatalogNames| && RoleCatalogNames[c] == n;
        assert catalog[c] in catalog;
        var k := AddMissingCovers(t.roles, t.nextRoleId, catalog, DraftName, present, NewRole, catalog[c]);
        assert RoleName(t'.roles[k]) == n;
      } else {
        var k :| k in t.roles && RoleName(t.roles[k]) == n;
        assert RoleName(t'.roles[k]) == n;
      }
    }
  }

  /** When the four roles are stored, seedRoles saves nothing. */
  lemma SeededRolesNoOp(t: SeedTables)
    requires SerialKeys(t.roles, t.nextRoleId)
    requires forall n :: n in RoleCatalogNames ==> HasRoleNamed(t.roles, n)
    ensures SeededRoles(t) == t
  {
    var catalog := RoleCatalog(t.permissions.Values);
    var present := StoredNames(t.roles, RoleName, RoleCatalogNames);
    forall d | d in catalog
      ensures DraftName(d) in present
    {
      var c :| 0 <= c < |catalog| && catalog[c] == d;
      assert RoleCatalogNames[c] in RoleCatalogNames;
    }
    AddMissingNoOp(t.roles, t.nextRoleId, catalog, DraftName, present, NewRole);
  }

  // ---------------------------------------------------------------------------
  // seedAdminUser

  /** `roleRepository.findOne({ where: { name: 'Admin' } })` */
  function AdminRole(roles: map<nat, Role>): (r: Option<Role>)
    requires UniqueRoleNames(roles)
    ensures r.Some? <==> HasRoleNamed(roles, "Admin")
    ensures r.Some? ==> r.value in roles.Values && r.value.name == "Admin"
  {
    if exists k :: k in roles && roles[k].name == "Admin" then
      var k :| k in roles && roles[k].name == "Admin";
      Some(roles[k])
    else None
  }

  /** The user table after seedAdminUser, `newId` being the uuid the database would assign
      and `hash` bcrypt. Nothing changes when a user with the admin email exists or when no
      Admin role exists; otherwise exactly the admin user is added, with roles [Admin]. */
  function SeededAdminUser(t: SeedTables, newId: Uuid, hash: string -> string): (t': SeedTables)
    requires UniqueRoleNames(t.roles) && newId !in t.users
    ensures t'.permissions == t.permissions && t'.nextPermissionId == t.nextPermissionId
    ensures t'.roles == t.roles && t'.nextRoleId == t.nextRoleId
    ensures UsersValid(t.users) ==> UsersValid(t'.users)
    ensures UsersService.IsEmailTaken(t.users, AdminEmail) || !HasRoleNamed(t.roles, "Admin") ==> t' == t
    ensures !UsersService.IsEmailTaken(t.users, AdminEmail) && HasRoleNamed(t.roles, "Admin") ==>
              t' == t.(users := t.users[newId := User(newId, AdminFirstName, AdminLastName, AdminEmail,
                                                     hash(AdminPassword), {AdminRole(t.roles).value})])
  {
    if UsersService.IsEmailTaken(t.users, AdminEmail) then t
    else
      match AdminRole(t.roles)
      case None => t
      case Some(adminRole) =>
        var hashedPassword := hash(AdminPassword);
        var adminUser := User(newId, AdminFirstName, AdminLastName, AdminEmail, hashedPassword, {adminRole});
        t.(users := t.users[newId := adminUser])
  }

  // ---------------------------------------------------------------------------
  // onModuleInit

  /** The three tables after onModuleInit: permissions, then roles, then the admin user. */
  function Seeded(t: SeedTables, newId: Uuid, hash: string -> string): (t': SeedTables)
    requires TablesValid(t) && newId !in t.users
    ensures TablesValid(t')
  {
    var t1 := SeededPermissions(t);
    SeededPermissionsValid(t);
    var t2 := SeededRoles(t1);
    SeededRolesValid(t1);
    SeededAdminUser(t2, newId, hash)
  }

  /** After onModuleInit the catalog, the four roles and the admin user are all stored. */
  lemma SeededEstablishes(t: SeedTables, newId: Uuid, hash: string -> string)
    requires TablesValid(t) && newId !in t.users
    ensures var t' := Seeded(t, newId, hash);
      && (forall n :: n in PermissionCatalog ==> HasPermissionNamed(t'.permissions, n))
      && (forall n :: n in RoleCatalogNames ==> HasRoleNamed(t'.roles, n))
      && UsersService.IsEmailTaken(t'.users, AdminEmail)
  {
    var t1 := SeededPermissions(t);
    SeededPermissionsComplete(t);
    SeededPermissionsValid(t);
    SeededRolesComplete(t1);
    SeededRolesValid(t1);
    var t2 := SeededRoles(t1);
    assert "Admin" in RoleCatalogNames;
    if !UsersService.IsEmailTaken(t2.users, AdminEmail) {
      assert Seeded(t, newId, hash).users[newId].email == AdminEmail;
    }
  }

  /** Running onModuleInit a second time adds no permission, role or user. */
  lemma {:induction false} OnModuleInitIdempotent(t: SeedTables, id1: Uuid, id2: Uuid, hash: string -> string)
    requires TablesValid(t) && id1 !in t.users
    requires id2 !in Seeded(t, id1, hash).users
    ensures Seeded(Seeded(t, id1, hash), id2, hash) == Seeded(t, id1, hash)
  {
    var s := Seeded(t, id1, hash);
    SeededEstablishes(t, id1, hash);
    SeededPermissionsNoOp(s);
    SeededRolesNoOp(s);
  }

  // ---------------------------------------------------------------------------
  // The service's methods, which write the tables.

  method SeedPermissions(db: Database)
    requires db.Valid()
    modifies db`permissions, db`nextPermissionId
    ensures db.Valid()
    ensures TablesOf(db) == SeededPermissions(old(TablesOf(db)))
  {
    SeededPermissionsValid(TablesOf(db));
    var existingPermissionNames := StoredNames(db.permissions, PermissionName, PermissionCatalog);
    var newPermissions := Without(PermissionCatalog, Itself, existingPermissionNames);
    if |newPermissions| > 0 {
      db.permissions := InsertAll(db.permissions, db.nextPermissionId, newPermissions, NewPermission);
      db.nextPermissionId := db.nextPermissionId + |newPermissions|;
    }
  }

  method SeedRoles(db: Database)
    requires db.Valid()
    modifies db`roles, db`nextRoleId
    ensures db.Valid()
    ensures TablesOf(db) == SeededRoles(old(TablesOf(db)))
  {
    SeededRolesValid(TablesOf(db));
    var permissions := db.permissions.Values;
    var existingRoleNames := StoredNames(db.roles, RoleName, RoleCatalogNames);
    var roles := RoleCatalog(permissions);
    var newRoles := Without(roles, DraftName, existingRoleNames);
    if |newRoles| > 0 {
      db.roles := InsertAll(db.roles, db.nextRoleId, newRoles, NewRole);
      db.nextRoleId := db.nextRoleId + |newRoles|;
    }
  }

  method SeedAdminUser(db: Database, hash: string -> string)
    requires db.Valid()
    modifies db`users
    ensures db.Valid()
    ensures exists newId :: newId !in old(db.users) && TablesOf(db) == SeededAdminUser(old(TablesOf(db)), newId, hash)
  {
    FreshUuidExists(db.users);
    var newId: Uuid :| newId !in db.users;
    ghost var expected := SeededAdminUser(TablesOf(db), newId, hash);
    var existingAdmin := UsersService.IsEmailTaken(db.users, AdminEmail);
    if existingAdmin {
      return;
    }
    var adminRole := AdminRole(db.roles);
    if adminRole.None? {
      return;
    }
    var hashedPassword := hash(AdminPassword);
    var adminUser := User(newId, AdminFirstName, AdminLastName, AdminEmail, hashedPassword, {adminRole.value});
    db.users := db.users[newId := adminUser];
    assert TablesOf(db) == expected;
  }

  method OnModuleInit(db: Database, hash: string -> string)
    requires db.Valid()
    modifies db`permissions, db`nextPermissionId, db`roles, db`nextRoleId, db`users
    ensures db.Valid()
    ensures exists newId :: newId !in old(db.users) && TablesOf(db) == Seeded(old(TablesOf(db)), newId, hash)
  {
    ghost var t := TablesOf(db);
    SeedPermissions(db);
    SeedRoles(db);
    SeedAdminUser(db, hash);
    ghost var newId :| newId !in t.users && TablesOf(db) == SeededAdminUser(SeededRoles(SeededPermissions(t)), newId, hash);
    assert TablesOf(db) == Seeded(t, newId, hash);
  }
}
