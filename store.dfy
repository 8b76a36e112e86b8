/** The database behind the TypeORM repositories: one table per entity, each an
    in-memory map keyed by primary key; serial keys come with their sequence counter. */
module Store {
  import opened Entities

  class Database {
    var users: map<Uuid, User>
    var roles: map<nat, Role>
    var nextRoleId: nat
    var permissions: map<nat, Permission>
    var nextPermissionId: nat
    var events: map<Uuid, Event>
    var tasks: map<Uuid, Task>
    var members: map<nat, Member>
    var nextMemberId: nat

    /** What the schema guarantees of every table. */
    ghost predicate Valid()
      reads this
    {
      && UsersValid(users)
      && RolesValid(roles, nextRoleId)
      && PermissionsValid(permissions, nextPermissionId)
      && EventsValid(events)
      && TasksValid(tasks)
      && MembersValid(members, nextMemberId)
      && AssignmentsValid(tasks, members)
    }

    /** A freshly migrated, empty database. */
    constructor ()
      ensures Valid()
      ensures users == map[] && roles == map[] && permissions == map[]
      ensures events == map[] && tasks == map[] && members == map[]
    {
      users, roles, permissions := map[], map[], map[];
      events, tasks, members := map[], map[], map[];
      nextRoleId, nextPermissionId, nextMemberId := 1, 1, 1;
    }
  }
}
