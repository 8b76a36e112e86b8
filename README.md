# Gruvee event-management back end: a Dafny model

This project models the service layer of Gruvee, a NestJS/TypeORM back end. Users
register and log in, events are created, tasks belong to events and are assigned to
members, and roles bundle permissions. What the model covers:

- **Entities and the database.** Each TypeORM entity is a datatype (`Entities`). The
  database is a class `Store.Database` whose tables are maps keyed by primary key. Serial
  keys come with their sequence counter. `Database.Valid()` states the schema's
  guarantees: each key equals the row's id column, serial keys stay below their counter,
  and the unique columns `users.email`, `roles.name` and `members.email` hold no
  duplicates. A task holds the member ids of its rows in the `assigned_to` join table, and
  every such id names a stored member.
- **UserService** (`UsersService`). This covers `createUser`: the payload check, the
  `Authorization: Bearer <token>` check (with JavaScript's `split(' ')` modelled
  exactly), email uniqueness, the in-place hashing of the payload's password, and the
  insert. It also covers the lookups `getUserById`, `isEmailTaken`, `findByEmail`,
  `findOne` and `findUserWithRoles`.
- **AuthService** (`AuthService`). `login` is its decision chain. `register` delegates to
  `createUser`.
- **UserController.getUserData** (`UsersController`): the owner check in front of
  `getUserById`.
- **SeedService** (`SeedService`). At start-up it completes the permission catalog, adds
  the missing standard roles with their permission grants, and creates the default admin
  user once.
- **RoleService, TaskService, EventService and MemberService**: their create, find,
  update and remove operations, each with its `NotFound` and unique-column error paths.
- **AuthMiddleware, AuthGuard and RolesGuard** (`AuthMiddleware`, `JwtAuthGuard`,
  `RolesGuard`). Their source is not part of this model. They are modelled by the
  behaviour their test suites pin down.

Every write works the same way. A pure function of the old table returns the result and
the new table, for example `TaskService.TaskCreated`. The method that writes the
`Database`, for example `TaskService.Create`, is proved equal to that function. The
properties live in lemmas about the function: a created row is found again, a removed
row is gone, invariants are kept, operations are idempotent, and an operation is exact
about which rows it touches.

Collaborators the code cannot see are parameters:

- bcrypt's `hash` and `compare`;
- JwtService's `sign` and `verify`;
- the uuid the database assigns.

A `Uuid` parameter of a specification function is "some key not in the table". The
method picks one and its contract says that one exists.

## Model

| member | source | states |
|---|---|---|
| Entities.InsertAll | src/modules/database/seed.service.ts:46-48 | A batch insert keeps every existing row. The i-th draft gets id nextId+i. No other key appears. The sequence counter ends past the new ids. |
| Entities.InsertedRow | src/modules/database/seed.service.ts:46-48 | A row that the batch insert added was built from the draft at its own position. |
| Entities.RowsWithIds | src/modules/rolePermission/role.service.ts:20-22 | `find({ where: { id: In(ids) } })` returns the stored rows whose key is listed. Unknown ids are dropped. |
| Entities.RowsWithIdsExact | src/modules/rolePermission/role.service.ts:20-22 | When rows carry their own key as id, a row is returned if and only if it is stored and its id is listed. |
| Entities.IdsIn | src/modules/task/task.service.ts:25-27 | The ids for which `In(ids)` finds a row are exactly the listed ids that are stored. |
| Entities.FreshUuidExists | src/libs/entities/users.entity.ts:1-40 | A finite table always leaves some uuid unused, so a generated primary key can be chosen. |
| UsersService.SplitOnSpace | src/modules/users/users.service.ts:29-37 | `split(' ')` yields at least one piece. No piece holds a space. Joining the pieces with spaces gives back the header. |
| UsersService.SplitAfter | src/modules/users/users.service.ts:29-37 | Splitting "a b" with a space-free `a` gives `a` followed by the pieces of `b`. |
| UsersService.SplitJoin | src/modules/users/users.service.ts:29-37 | Splitting undoes joining for space-free pieces. This is the other half of the round trip. |
| UsersService.BearerToken | src/modules/users/users.service.ts:29-37 | The header check of createUser. A token is produced only from a present header, and it is non-empty and holds no space. BearerTokenAccepts and BearerTokenSound give the exact shape of the accepted headers. |
| UsersService.BearerTokenAccepts | src/modules/users/users.service.ts:29-37 | Every header "Bearer <token>", optionally followed by more space-separated text, is accepted and yields <token>. |
| UsersService.BearerTokenSound | src/modules/users/users.service.ts:29-37 | Every accepted header starts with "Bearer ", then a non-empty token without spaces, then a space or the end of the header. |
| UsersService.BearerSchemeIsExact | src/modules/users/users.service.ts:29-37 | Any other first word, including "bearer", is refused. |
| UsersService.GetUserById | src/modules/users/users.service.ts:78-95 | Succeeds exactly when the id is stored, with that user's public fields. Otherwise NotFound names the id. |
| UsersService.IsEmailTaken | src/modules/users/users.service.ts:97-100 | True exactly when some stored user has the email. |
| UsersService.FindByEmail | src/modules/users/users.service.ts:102-112 | Returns a stored user with that email exactly when the email is taken. Otherwise NotFound names the email. |
| UsersService.FindOne | src/modules/users/users.service.ts:119-125 | Returns the user stored under the id, or NotFound('User not found') exactly when there is none. |
| UsersService.FindUserWithRoles | src/modules/users/users.service.ts:127-132 | Returns the user stored under the id, or null exactly when there is none. |
| UsersService.Registered | src/modules/users/users.service.ts:18-76 | The checks run in order: payload, then header, then email. Each failure gives its 400 answer and leaves the table unchanged. Success happens exactly when all three pass. It adds exactly the new user, with the hashed password and no roles, and answers with the header's token. |
| UsersService.RegistrationKeepsUsersValid | src/modules/users/users.service.ts:39-50 | Registration keeps ids consistent and emails unique. A success adds exactly one user; a failure adds none. |
| UsersService.CreateUser | src/modules/users/users.service.ts:18-76 | The method leaves the table and the answer that `Registered` gives for some fresh uuid. It overwrites the payload's password with its hash in place only on success. The table stays valid. |
| AuthService.Login | src/auth/auth.service.ts:16-67 | A missing or empty email or password gives 400. A null lookup gives 404. A lookup that throws gives 401 'Authentication failed'. A wrong password gives 401 'Invalid credentials'. Otherwise the answer is a token signed over the user without its password. Success happens exactly when both fields are given, the user is found and the password matches. |
| AuthService.LoginRequest | src/auth/auth.service.ts:16 | Destructuring a missing body throws TypeError before the try block. Any present body gets the answer of Login. |
| AuthService.StripPassword | src/auth/auth.service.ts:44 | `const { password: _, ...result } = user` drops only the password: putting the password back gives the user. |
| AuthService.StripPasswordRoundTrip | src/auth/auth.service.ts:44 | Stripping the password loses nothing else: putting it back restores the user, and stripping restores the claims. |
| AuthService.StoreLookup | src/modules/users/users.service.ts:102-112 | The real lookup never resolves to null. |
| AuthService.LoginWithStoreLookup | src/auth/auth.service.ts:26-33 | Against the real findByEmail, login never answers 404 'User not found'. An unknown email gives 401 'Authentication failed'. |
| AuthService.LoginAfterRegistration | src/auth/auth.service.ts:16-67 | After a successful registration with a non-empty email and a non-empty password, logging in with the same email and password succeeds, provided bcrypt accepts a password against its own hash. The token signs the new user's claims. Registration also accepts an empty password, but login then answers 400. |
| AuthService.Register | src/auth/auth.service.ts:70-78 | The corrected register gives exactly createUser's answer and table, including 400 'No payload provided' for a missing body. |
| AuthService.RegisteredAsWritten | src/auth/auth.service.ts:70-78 | Register as written throws TypeError exactly when the payload is missing. |
| AuthService.NullPayloadThrowsInRegister | src/auth/auth.service.ts:71-77 | For a missing payload, register as written throws TypeError, while createUser would answer 400 'No payload provided' and leave the table unchanged. |
| AuthService.RegisterAgreesOnPresentPayload | src/auth/auth.service.ts:70-78 | For any present payload, register as written and createUser agree. |
| UsersController.GetUserData | src/modules/users/users.controller.ts:13-21 | A requester asking for another id gets the 'Unauthorized' error object. The owner gets getUserById's answer or its NotFound. |
| UsersController.MismatchIgnoresStore | src/modules/users/users.controller.ts:16-18 | On a mismatch the answer does not depend on the user table. |
| UsersController.UnknownOwnerPropagatesNotFound | src/modules/users/users.controller.ts:20 | The owner of an unknown id gets NotFound, not the refusal. |
| AuthMiddleware.ExtractBearer | src/auth/auth.middleware.spec.ts:25-48 | A token is extracted only from a header that is exactly "Bearer " plus a non-empty token without spaces. |
| AuthMiddleware.ExtractBearerAccepts | src/auth/auth.middleware.spec.ts:25-32 | Every "Bearer <token>" header yields its token. |
| AuthMiddleware.ExtractBearerNeedsScheme | src/auth/auth.middleware.spec.ts:34-48 | A missing header, or one not starting with "Bearer ", yields no token. |
| AuthMiddleware.MiddlewareTokenAcceptedByCreateUser | src/modules/users/users.service.ts:29-37 | createUser accepts the same token that the middleware extracts. |
| AuthMiddleware.Use | src/auth/auth.middleware.spec.ts:18-48 | `next` is always called. `req.token` is set to the extracted token when there is one, and is untouched otherwise. |
| AuthMiddleware.TestedHeaders | src/auth/auth.middleware.spec.ts:25-48 | The three tested requests are all passed on. `req.token` ends up "validToken" for "Bearer validToken", and stays undefined for a missing header and for "InvalidFormatToken". |
| JwtAuthGuard.CanActivate | src/auth/guards/jwt-auth.guard.spec.ts:27-57 | The guard resolves to true exactly when the route is public, or a token is present and verifies. Otherwise it throws Unauthorized. It never resolves to false. |
| JwtAuthGuard.PublicRouteAllowsWithoutToken | src/auth/guards/jwt-auth.guard.spec.ts:27-31 | A public route is open without a token, whatever the verifier says. |
| JwtAuthGuard.MalformedHeaderIsUnauthorized | src/auth/auth.middleware.spec.ts:41-48 | Behind the middleware, the header "InvalidFormatToken" on a protected route is refused. |
| RolesGuard.CanActivate | src/auth/guards/roles.guard.spec.ts:30-60 | The guard allows exactly when no role is required, or the user holds a role named in the list. |
| RolesGuard.AnyRequiredRoleSuffices | src/auth/guards/roles.guard.spec.ts:48-54 | Holding any one of the required roles is enough. |
| RolesGuard.NoRolesDenied | src/auth/guards/roles.guard.spec.ts:56-60 | A user without roles is refused whenever some role is required. |
| RolesGuard.MatchedByName | src/auth/guards/roles.guard.spec.ts:17-28 | Roles are compared by name only. |
| RolesGuard.TestedCases | src/auth/guards/roles.guard.spec.ts:30-60 | The five tested cases give the tested answers. |
| SeedService.StoredNames | src/modules/database/seed.service.ts:39-43 | The query returns exactly the catalog names that some row carries. |
| SeedService.Without | src/modules/database/seed.service.ts:44 | The catalog filter never grows the catalog. WithoutFacts states exactly what it keeps. |
| SeedService.WithoutFacts | src/modules/database/seed.service.ts:44 | The filter keeps exactly the entries whose name is not stored. It keeps names distinct, and is empty when every name is stored. |
| SeedService.AddMissing | src/modules/database/seed.service.ts:43-48 | The seeding step keeps every existing row and keeps serial keys below the counter. |
| SeedService.AddMissingAdded | src/modules/database/seed.service.ts:43-48 | Every added row comes from a catalog entry whose name was not stored. |
| SeedService.AddMissingCovers | src/modules/database/seed.service.ts:43-48 | Every catalog entry whose name was not stored is added. |
| SeedService.AddMissingDistinct | src/modules/database/seed.service.ts:43-48 | Added rows carry pairwise distinct names when the catalog's names are distinct. |
| SeedService.AddMissingNoOp | src/modules/database/seed.service.ts:46 | When every name is stored, nothing is inserted and the counter stays. |
| SeedService.SeededPermissions | src/modules/database/seed.service.ts:25-49 | seedPermissions keeps every existing permission and touches no other table. |
| SeedService.SeededPermissionsValid | src/modules/database/seed.service.ts:25-49 | seedPermissions keeps the permission table valid. |
| SeedService.SeededPermissionsAddOnlyMissing | src/modules/database/seed.service.ts:39-48 | Every new permission has a catalog name that was not stored before. New names are pairwise distinct. |
| SeedService.SeededPermissionsComplete | src/modules/database/seed.service.ts:25-49 | Afterwards every catalog permission is stored. |
| SeedService.SeededPermissionsNoOp | src/modules/database/seed.service.ts:46-48 | With the catalog already stored, seedPermissions changes nothing. |
| SeedService.PermissionsNamed | src/modules/database/seed.service.ts:59-76 | A role's grant is exactly the loaded permissions whose name it lists. |
| SeedService.RoleCatalog | src/modules/database/seed.service.ts:54-77 | The four drafts are named Admin, Event Manager, Task Manager and Viewer, in that order. |
| SeedService.SeededRoles | src/modules/database/seed.service.ts:51-89 | seedRoles keeps every existing role and touches no other table. |
| SeedService.SeededRoleGrants | src/modules/database/seed.service.ts:52-88 | Every new role is a catalog role that was missing. Admin gets every stored permission. Each other role gets exactly the stored permissions named in its list. |
| SeedService.SeededRolesValid | src/modules/database/seed.service.ts:51-89 | seedRoles keeps ids consistent and role names unique. |
| SeedService.SeededRolesComplete | src/modules/database/seed.service.ts:51-89 | Afterwards all four standard roles are stored. |
| SeedService.SeededRolesNoOp | src/modules/database/seed.service.ts:86-88 | With all four roles stored, seedRoles changes nothing. |
| SeedService.AdminRole | src/modules/database/seed.service.ts:107-112 | Finds the role named Admin exactly when one is stored. |
| SeedService.SeededAdminUser | src/modules/database/seed.service.ts:91-129 | When the admin email is taken or no Admin role exists, nothing changes. Otherwise exactly one user is added: John Doe, testuser@yopmail.com, the hashed "password", holding the Admin role. Users stay valid. |
| SeedService.Seeded | src/modules/database/seed.service.ts:19-23 | onModuleInit keeps all three tables valid. |
| SeedService.SeededEstablishes | src/modules/database/seed.service.ts:19-23 | Afterwards the permission catalog, the four roles and the admin email are all stored. |
| SeedService.OnModuleInitIdempotent | src/modules/database/seed.service.ts:19-23 | Running onModuleInit a second time changes nothing. |
| SeedService.SeedPermissions | src/modules/database/seed.service.ts:25-49 | The method leaves exactly the tables that SeededPermissions gives, and they stay valid. |
| SeedService.SeedRoles | src/modules/database/seed.service.ts:51-89 | The method leaves exactly the tables that SeededRoles gives, and they stay valid. |
| SeedService.SeedAdminUser | src/modules/database/seed.service.ts:91-129 | The method leaves the tables that SeededAdminUser gives for some fresh uuid. |
| SeedService.OnModuleInit | src/modules/database/seed.service.ts:19-23 | The method leaves the tables that Seeded gives for some fresh uuid. |
| RoleService.RoleCreated | src/modules/rolePermission/role.service.ts:17-30 | createRole fails with a unique violation on `name` exactly when the name is stored, and then changes nothing. Otherwise it adds the role under the next id. Roles stay valid. |
| RoleService.RoleNameTaken | src/libs/entities/role.entity.ts:10 | The unique `name` column refuses a save exactly when some stored role already has the name. |
| RoleService.CreatedRolePermissionsExact | src/modules/rolePermission/role.service.ts:20-27 | The new role holds exactly the stored permissions whose id the request lists. |
| RoleService.CreateRoleTwiceFails | src/libs/entities/role.entity.ts:10 | A second createRole with the same name fails and changes nothing. |
| RoleService.PermissionCreated | src/modules/rolePermission/role.service.ts:36-41 | createPermission adds one permission with the requested name under the next id. Permissions stay valid. |
| RoleService.FindAllRoles | src/modules/rolePermission/role.service.ts:32-34 | Lists exactly the stored roles. |
| RoleService.FindAllPermissions | src/modules/rolePermission/role.service.ts:43-45 | Lists exactly the stored permissions. |
| RoleService.CreatedRoleIsListed | src/modules/rolePermission/role.service.ts:17-34 | After createRole, findAllRoles lists the old roles plus exactly the new one. |
| RoleService.CreateRole | src/modules/rolePermission/role.service.ts:17-30 | The method leaves the answer and table that RoleCreated gives. |
| RoleService.CreatePermission | src/modules/rolePermission/role.service.ts:36-41 | The method leaves the answer and table that PermissionCreated gives. |
| TaskService.FindAll | src/modules/task/task.service.ts:38-43 | Lists exactly the stored tasks of the event. |
| TaskService.FindOne | src/modules/task/task.service.ts:45-52 | Fails only with NotFound('Task not found'). |
| TaskService.FindOneWithinFindAll | src/modules/task/task.service.ts:38-52 | findOne succeeds exactly for the tasks that findAll lists for that event, and returns the one asked for. |
| TaskService.AssignedMembers | src/modules/task/task.service.ts:38-52 | `relations: ['assigned_to']` loads exactly the members stored now under the ids the join table holds for the task. |
| TaskService.AssignedMembersExact | src/libs/entities/task.entity.ts:22-24 | On a valid member table the loaded members are exactly the stored members whose id is assigned. |
| TaskService.TaskCreated | src/modules/task/task.service.ts:19-36 | create fails with NotFound('Event not found') exactly when the event is missing, and then changes nothing. Otherwise it adds one task with the request's fields under the event. The task is assigned exactly the listed ids that name stored members. Tasks and assignments stay valid. |
| TaskService.CreatedTaskMembersExact | src/modules/task/task.service.ts:25-33 | The members a created task loads are exactly the stored members whose id the request lists. |
| TaskService.CreatedTaskIsFound | src/modules/task/task.service.ts:19-52 | A created task is found under its event, and findAll of that event grows by exactly it. |
| TaskService.Merged | src/modules/task/task.service.ts:68-72 | The merge keeps the task's id and event. |
| TaskService.MergeOfEmptyRequest | src/modules/task/task.service.ts:68-72 | A request with no field keeps every field but the members. |
| TaskService.MergeIdempotent | src/modules/task/task.service.ts:68-72 | Applying the same request twice is applying it once. |
| TaskService.AssignedIds | src/modules/task/task.service.ts:64-66 | The ids an update looks up: the request's `assigned_to`, or none when it is omitted. |
| TaskService.TaskUpdated | src/modules/task/task.service.ts:54-75 | update fails exactly when findOne does, and then changes nothing. Otherwise it saves the merged task over the stored one, assigned exactly the listed ids that name stored members. Assignments stay valid. |
| TaskService.UpdatedTaskIsFound | src/modules/task/task.service.ts:54-75 | After an update the task is found under its event with the merged fields. Every other task is unchanged. |
| TaskService.UpdateReplacesMembers | src/modules/task/task.service.ts:64-72 | An update replaces the task's members. A request without `assigned_to` leaves it with none. A request with ids gives it exactly the stored members among them. |
| TaskService.UpdateKeepsTasksValid | src/modules/task/task.service.ts:54-75 | An update keeps the task table valid. |
| TaskService.TaskRemoved | src/modules/task/task.service.ts:77-81 | remove fails exactly when findOne does. Otherwise it deletes exactly that task and answers 'Task deleted successfully'. |
| TaskService.RemovedTaskIsGone | src/modules/task/task.service.ts:77-81 | After a removal the task is not found, and findAll of its event loses exactly it. |
| TaskService.Create | src/modules/task/task.service.ts:19-36 | The method leaves the answer and table that TaskCreated gives for some fresh uuid. |
| TaskService.Update | src/modules/task/task.service.ts:54-75 | The method leaves the answer and table that TaskUpdated gives. |
| TaskService.Remove | src/modules/task/task.service.ts:77-81 | The method leaves the answer and table that TaskRemoved gives. |
| EventService.EventCreated | src/modules/event/event.service.ts:16-25 | create adds one event with the request's fields, created by the given user. Events stay valid. |
| EventService.FindAll | src/modules/event/event.service.ts:27-31 | Lists exactly the stored events. |
| EventService.FindOne | src/modules/event/event.service.ts:33-40 | Fails only with NotFound('Event not found'). |
| EventService.FindOneWithinFindAll | src/modules/event/event.service.ts:27-40 | findOne succeeds exactly for the ids of the events that findAll lists, and returns that event. |
| EventService.CreatedEventIsFound | src/modules/event/event.service.ts:16-40 | A created event is found under its id, and findAll grows by exactly it. |
| EventService.Overwritten | src/modules/event/event.service.ts:42-45 | The update keeps the event's id and creator. |
| EventService.EventUpdated | src/modules/event/event.service.ts:42-45 | update fails with NotFound exactly when the id is unknown, and then changes nothing. Otherwise the columns sent are overwritten. The answer is findOne on the new table. |
| EventService.UpdateIdempotent | src/modules/event/event.service.ts:42-45 | Updating twice with the same request is updating once. |
| EventService.EventRemoved | src/modules/event/event.service.ts:47-59 | remove fails with NotFound exactly when the id is unknown. Otherwise it deletes exactly that event and answers 'Event deleted successfully'. |
| EventService.RemovedEventIsGone | src/modules/event/event.service.ts:47-59 | After a removal the event is not found, and findAll loses exactly it. |
| EventService.Create | src/modules/event/event.service.ts:16-25 | The method leaves the event and table that EventCreated gives for some fresh uuid. |
| EventService.Update | src/modules/event/event.service.ts:42-45 | The method leaves the answer and table that EventUpdated gives. |
| EventService.Remove | src/modules/event/event.service.ts:47-59 | The method leaves the answer and table that EventRemoved gives. |
| MemberService.MemberCreated | src/modules/member/member.service.ts:18-32 | create fails with a unique violation on `email` exactly when the email is stored, and then changes nothing. Otherwise it adds the member, without an event, under the next id. Members stay valid. |
| MemberService.EmailHeldByOther | src/libs/entities/member.entity.ts:12 | For a new row, the unique `email` column refuses a save exactly when some stored member has the email. |
| MemberService.Saved | src/modules/member/member.service.ts:26-31 | A refused save changes nothing. An accepted save stores the member under its id. Either way member emails stay unique. |
| MemberService.FindOne | src/modules/member/member.service.ts:40-46 | Returns a stored member with that email exactly when there is one. Otherwise it gives NotFound('Member not found'). |
| MemberService.CreatedMemberIsFound | src/modules/member/member.service.ts:18-46 | A created member is found by its email. |
| MemberService.Assigned | src/modules/member/member.service.ts:53 | Object.assign keeps the member's id and event. |
| MemberService.MemberUpdated | src/modules/member/member.service.ts:48-55 | An unknown email gives NotFound. A new email already held by another member gives a unique violation. Otherwise the assigned member is saved over the old one. Members stay valid. |
| MemberService.EmptyUpdateChangesNothing | src/modules/member/member.service.ts:48-55 | An update with no field leaves the table as it was. |
| MemberService.UpdatedMemberIsFound | src/modules/member/member.service.ts:48-55 | After an update the member is found by its new email. |
| MemberService.UpdatedMemberShownInTasks | src/modules/task/task.service.ts:45-52 | After a member update, every task assigned that member loads the updated member in place of the old one. |
| MemberService.MemberRemoved | src/modules/member/member.service.ts:57-63 | remove fails exactly when findOne does, and then changes nothing. Otherwise it deletes exactly that member and answers 'Member removed successfully'. The join table's cascade removes the member from every task. Members, tasks and assignments stay valid. |
| MemberService.Unassigned | src/libs/entities/task.entity.ts:22-24 | Deleting a member's join-table rows keeps every task and removes only that id from each task's assignments. |
| MemberService.RemovedMemberIsGone | src/modules/member/member.service.ts:57-63 | Afterwards no member has the email, and every other member is kept. |
| MemberService.RemovedMemberIsUnassigned | src/modules/member/member.service.ts:57-63 | After a removal, every task loads the members it loaded before, minus exactly the removed one. |
| MemberService.Create | src/modules/member/member.service.ts:18-32 | The method leaves the answer and table that MemberCreated gives. |
| MemberService.Update | src/modules/member/member.service.ts:48-55 | The method assigns field by field, then leaves the answer and table that MemberUpdated gives. |
| MemberService.Remove | src/modules/member/member.service.ts:57-63 | The method leaves the answer, member table and task table that MemberRemoved gives. |

## Left out

- Logging (`console.log`, the logger), dependency injection, modules and every controller except `getUserData`: they only forward calls or write output.
- Request validation by class-validator decorators: DTO fields are taken as given.
- Dates (`start_time`, `end_time`, `due_time`): they are opaque strings. Nothing computes with them.
- `hashPassword` and bcrypt itself: the hash is a parameter, and a failure of hashing, comparing or signing is not modelled.
- JWT expiry and the contents of the signed token: `sign` and `verify` are parameters.
- Uuid format: a generated key is any string not already in the table. A lookup by a string that is not a uuid (`getUserById`, and the task and event `findOne`, `update` and `remove`) makes PostgreSQL throw QueryFailedError for invalid uuid input. The model answers NotFound instead.
- The order of returned arrays: query results are sets. Task reads return the task row with its assigned member ids; TaskService.AssignedMembers is the relation that `relations: ['assigned_to']` loads from them.
- Event deletion cascades: the foreign keys at task.entity.ts:19 and member.entity.ts:15 are `onDelete: 'CASCADE'`, so deleting an event deletes its tasks and members in the database. EventService.EventRemoved deletes only the event row. The cascade from a deleted member to its task assignments is modelled (MemberService.MemberRemoved).
- EventService.EventUpdated: an update with no column makes TypeORM throw UpdateValuesMissingError. Here it is a no-op.
- RoleService.RoleCreated, MemberService.MemberCreated: a failed insert in PostgreSQL still advances the sequence. Here the counter is kept.
- The `@Roles('Admin')` decorators in `role.controller.ts` are not enforced there: those routes use only AuthGuard, and no module registers RolesGuard. Controllers are outside this model.
- AuthMiddleware.ExtractBearer: its source is not part of this model. The rule is the narrowest one that the test suite pins down (exactly "Bearer " plus a space-free token). Headers the tests do not cover may be treated differently by the original.
- JwtAuthGuard.CanActivate, RolesGuard.CanActivate: their source is not part of this model. They are stated by the tested behaviour only. An empty required-role list is taken as "no requirement".
- EventService.EventRemoved, TaskService.TaskUpdated: the branches after `findOne` that test for a missing row cannot be reached, because `findOne` already threw. They are not modelled.
- EventService.EventRemoved: the source returns `undefined` if the repository's remove resolves to a falsy value. A TypeORM remove always resolves to the entity, so the model always answers with the message.
- TaskService.AssignedIds: an update without `assigned_to` looks up `In(undefined)`, which the model takes as no members.
- permission.entity.ts is not part of this model: the permission name is not treated as a unique column.
- MemberService.Update: `Object.assign` mutates the fetched entity object in place. The model assigns to a value copy, because no other reference to it is visible.
- Table invariants: the specification functions of the update and remove operations take the table invariants (each key equals the row's id, unique columns) as preconditions. These are what the schema guarantees.

## Findings

| source | as written | input that shows it | evidently intended | confidence | as-written member | corrected member |
|---|---|---|---|---|---|---|
| src/auth/auth.service.ts:70-78 | `register` reads `payload.email`, `payload.firstName` and `payload.lastName` into an unused object before calling `createUser` | a register request with no body (payload `null`) | `createUser`'s own check answers 400 'No payload provided' | not executed | AuthService.RegisteredAsWritten | AuthService.Register |

`AuthService.NullPayloadThrowsInRegister` states the discrepancy:

- the as-written function yields `Err(TypeError)`;
- `UsersService.Registered`, which `AuthService.Register` is proved to follow, answers `BadRequest("No payload provided", 400)` and leaves the table unchanged.

`AuthService.RegisterAgreesOnPresentPayload` shows that the two agree on every present payload.
