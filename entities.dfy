/** The rows of the application's tables (the TypeORM entities) and the helpers that
    every service uses on them: the table invariants the database enforces, id generation
    and the `In(ids)` lookup. */
module Entities {

  datatype Option<T> = None | Some(value: T) {
    function GetOr(default: T): (r: T) {
      if Some? then value else default
    }
  }

  datatype Result<T, E> = Ok(value: T) | Err(error: E)

  /** The exceptions the services raise or let through. */
  datatype Error =
    | NotFound(message: string)          // NestJS NotFoundException
    | UniqueViolation(column: string)    // the database refuses a duplicate in a unique column
    | Unauthorized                       // NestJS UnauthorizedException
    | TypeError                          // a property read on null or undefined

  /** Columns generated as 'uuid' are strings; dates are opaque. */
  type Uuid = string
  type Timestamp = string

  datatype Permission = Permission(id: nat, name: string)

  datatype Role = Role(id: nat, name: string, permissions: set<Permission>)

  datatype User = User(
    userId: Uuid,
    firstName: string,
    lastName: string,
    email: string,
    password: string,
    roles: set<Role>)

  /** `createdBy` is the id of the creating user (the foreign key behind `created_by`). */
  datatype Event = Event(
    id: Uuid,
    name: string,
    location: string,
    startTime: Timestamp,
    endTime: Timestamp,
    createdBy: Uuid)

  datatype Member = Member(id: nat, name: string, email: string, event: Option<Uuid>)

  /** `eventId` is the foreign key behind `event`; `assignedTo` holds the member ids of the
      task's rows in the `assigned_to` join table. */
  datatype Task = Task(
    id: Uuid,
    title: string,
    description: string,
    dueTime: Timestamp,
    eventId: Uuid,
    assignedTo: set<nat>)

  // ---------------------------------------------------------------------------
  // Table invariants: primary keys agree with the id column, serial ids stay below
  // the sequence counter, and unique columns hold no duplicates.

  ghost predicate SerialKeys<V>(rows: map<nat, V>, nextId: nat) {
    forall k :: k in rows ==> k < nextId
  }

  ghost predicate UniqueUserEmails(users: map<Uuid, User>) {
    forall a, b :: a in users && b in users && users[a].email == users[b].email ==> a == b
  }

  ghost predicate UsersValid(users: map<Uuid, User>) {
    (forall k :: k in users ==> users[k].userId == k) && UniqueUserEmails(users)
  }

  ghost predicate UniqueRoleNames(roles: map<nat, Role>) {
    forall a, b :: a in roles && b in roles && roles[a].name == roles[b].name ==> a == b
  }

  ghost predicate RolesValid(roles: map<nat, Role>, nextId: nat) {
    SerialKeys(roles, nextId) && (forall k :: k in roles ==> roles[k].id == k) && UniqueRoleNames(roles)
  }

  ghost predicate PermissionsValid(permissions: map<nat, Permission>, nextId: nat) {
    SerialKeys(permissions, nextId) && forall k :: k in permissions ==> permissions[k].id == k
  }

  ghost predicate EventsValid(events: map<Uuid, Event>) {
    forall k :: k in events ==> events[k].id == k
  }

  ghost predicate TasksValid(tasks: map<Uuid, Task>) {
    forall k :: k in tasks ==> tasks[k].id == k
  }

  ghost predicate UniqueMemberEmails(members: map<nat, Member>) {
    forall a, b :: a in members && b in members && members[a].email == members[b].email ==> a == b
  }

  ghost predicate MembersValid(members: map<nat, Member>, nextId: nat) {
    SerialKeys(members, nextId) && (forall k :: k in members ==> members[k].id == k) && UniqueMemberEmails(members)
  }

  /** The join table's foreign key: every assignment names a stored member. */
  ghost predicate AssignmentsValid(tasks: map<Uuid, Task>, members: map<nat, Member>) {
    forall k, id :: k in tasks && id in tasks[k].assignedTo ==> id in members
  }

  // ---------------------------------------------------------------------------
  // Generated keys.

  /** A string longer than every string of `keys`: the witness that a finite table
      always leaves a uuid unused. */
  ghost function LongerThanAll(keys: set<string>): (s: string)
    ensures forall k :: k in keys ==> |k| < |s|
    decreases keys
  {
    if keys == {} then ""
    else
      var k :| k in keys;
      var rest := LongerThanAll(keys - {k});
      if |k| < |rest| then rest else k + "-"
  }

  /** PrimaryGeneratedColumn('uuid') can always produce a key that is not in use. */
  lemma FreshUuidExists<V>(table: map<Uuid, V>)
    ensures exists id: Uuid :: id !in table
  {
    var s := LongerThanAll(table.Keys);
    assert s !in table;
  }

  /** A batch `insert`/`save` on a serial table: the drafts get the ids nextId, nextId+1, ...
      in order, and the rows already there are kept. */
  function InsertAll<D, V>(rows: map<nat, V>, nextId: nat, drafts: seq<D>, build: (nat, D) -> V): (r: map<nat, V>)
    requires SerialKeys(rows, nextId)
    ensures forall k :: k in rows ==> k in r && r[k] == rows[k]
    ensures forall k :: nextId <= k < nextId + |drafts| ==> k in r && r[k] == build(k, drafts[k - nextId])
    ensures forall k :: k in r ==> k in rows || nextId <= k < nextId + |drafts|
    ensures SerialKeys(r, nextId + |drafts|)
    decreases |drafts|
  {
    if drafts == [] then rows
    else
      var r := InsertAll(rows[nextId := build(nextId, drafts[0])], nextId + 1, drafts[1..], build);
      r
  }

  /** A row that InsertAll added is the draft whose position matches its id. */
  lemma InsertedRow<D, V>(rows: map<nat, V>, nextId: nat, drafts: seq<D>, build: (nat, D) -> V, k: nat)
    requires SerialKeys(rows, nextId)
    requires k in InsertAll(rows, nextId, drafts, build) && k !in rows
    ensures nextId <= k < nextId + |drafts|
    ensures InsertAll(rows, nextId, drafts, build)[k] == build(k, drafts[k - nextId])
  {
  }

  /** The rows a `findBy({ id: In(ids) })` query returns; ids with no row are dropped. */
  function RowsWithIds<V>(rows: map<nat, V>, ids: seq<nat>): (r: set<V>)
    ensures forall k :: k in rows && k in ids ==> rows[k] in r
    ensures forall v :: v in r ==> exists k :: k in rows && k in ids && rows[k] == v
  {
    set k | k in rows && k in ids :: rows[k]
  }

  /** The keys a `findBy({ id: In(ids) })` query returns rows for. */
  function IdsIn<V>(rows: map<nat, V>, ids: seq<nat>): (r: set<nat>)
    ensures forall k :: k in r <==> k in rows && k in ids
  {
    set k | k in rows && k in ids
  }

  /** On a table whose rows carry their own key as id, `In(ids)` returns exactly the rows
      whose id is listed. */
  lemma RowsWithIdsExact<V>(rows: map<nat, V>, ids: seq<nat>, id: V -> nat)
    requires forall k :: k in rows ==> id(rows[k]) == k
    ensures forall v :: v in RowsWithIds(rows, ids) <==> v in rows.Values && id(v) in ids
  {
    forall v | v in rows.Values && id(v) in ids
      ensures v in RowsWithIds(rows, ids)
    {
      var k :| k in rows && rows[k] == v;
    }
  }
}
