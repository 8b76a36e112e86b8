/** TaskService: the tasks of an event, each assigned to stored members. */
module TaskService {
  import opened Entities
  import opened Store

  datatype CreateTaskDto = CreateTaskDto(title: string, description: string, assignedTo: seq<nat>, dueTime: Timestamp)

  /** Every field may be left out of the request body. */
  datatype UpdateTaskDto = UpdateTaskDto(
    title: Option<string>,
    description: Option<string>,
    assignedTo: Option<seq<nat>>,
    dueTime: Option<Timestamp>)

  /** The result of a call together with the task table it leaves. */
  datatype TaskWrite<T> = TaskWrite(result: Result<T, Error>, tasks: map<Uuid, Task>)

  /** The members the `assigned_to` relation loads for a task (`relations: ['assigned_to']`):
      the stored members whose id the join table holds for it, as they are now. */
  function AssignedMembers(task: Task, members: map<nat, Member>): (r: set<Member>)
    ensures forall m :: m in r <==> exists k :: k in task.assignedTo && k in members && members[k] == m
  {
    set k | k in task.assignedTo && k in members :: members[k]
  }

  /** On a valid member table the loaded relation is exactly the stored members whose id is
      assigned. */
  lemma AssignedMembersExact(task: Task, members: map<nat, Member>, nextMemberId: nat)
    requires MembersValid(members, nextMemberId)
    ensures forall m :: m in AssignedMembers(task, members) <==> m in members.Values && m.id in task.assignedTo
  {
    forall m | m in members.Values && m.id in task.assignedTo
      ensures m in AssignedMembers(task, members)
    {
      var k :| k in members && members[k] == m;
    }
  }

  /** findAll: the tasks whose event is `eventId`. */
  function FindAll(tasks: map<Uuid, Task>, eventId: Uuid): (r: set<Task>)
    ensures forall t :: t in r <==> t in tasks.Values && t.eventId == eventId
  {
    set k | k in tasks && tasks[k].eventId == eventId :: tasks[k]
  }

  /** findOne: the task stored under `taskId`, provided it belongs to `eventId`. */
  function FindOne(tasks: map<Uuid, Task>, eventId: Uuid, taskId: Uuid): (r: Result<Task, Error>)
    ensures r.Err? ==> r.error == NotFound("Task not found")
  {
    if taskId in tasks && tasks[taskId].eventId == eventId then Ok(tasks[taskId])
    else Err(NotFound("Task not found"))
  }

  /** findOne succeeds exactly for the tasks findAll lists for that event, and returns the
      one whose id was asked for. */
  lemma FindOneWithinFindAll(tasks: map<Uuid, Task>, eventId: Uuid, taskId: Uuid)
    requires TasksValid(tasks)
    ensures FindOne(tasks, eventId, taskId).Ok? <==> exists t :: t in FindAll(tasks, eventId) && t.id == taskId
    ensures FindOne(tasks, eventId, taskId).Ok? ==>
              FindOne(tasks, eventId, taskId).value in FindAll(tasks, eventId) &&
              FindOne(tasks, eventId, taskId).value.id == taskId
  {
    if t :| t in FindAll(tasks, eventId) && t.id == taskId {
      var k :| k in tasks && tasks[k] == t;
      assert k == taskId;
    }
  }

  /** create: the event must exist; the members are looked up by id; `newId` is the uuid
      the database assigns. */
  function TaskCreated(tasks: map<Uuid, Task>, events: map<Uuid, Event>, members: map<nat, Member>,
                       eventId: Uuid, dto: CreateTaskDto, newId: Uuid): (w: TaskWrite<Task>)
    requires EventsValid(events) && newId !in tasks
    ensures w.result.Err? <==> eventId !in events
    ensures w.result.Err? ==> w.result.error == NotFound("Event not found") && w.tasks == tasks
    ensures w.result.Ok? ==>
      var task := w.result.value;
      && task.id == newId && task.eventId == eventId
      && task.title == dto.title && task.description == dto.description && task.dueTime == dto.dueTime
      && (forall id :: id in task.assignedTo <==> id in members && id in dto.assignedTo)
      && w.tasks == tasks[newId := task]
    ensures TasksValid(tasks) ==> TasksValid(w.tasks)
    ensures AssignmentsValid(tasks, members) ==> AssignmentsValid(w.tasks, members)
  {
    if eventId !in events then TaskWrite(Err(NotFound("Event not found")), tasks)
    else
      var event := events[eventId];
      var assignedMembers := IdsIn(members, dto.assignedTo);
      var task := Task(newId, dto.title, dto.description, dto.dueTime, event.id, assignedMembers);
      TaskWrite(Ok(task), tasks[task.id := task])
  }

  /** The members a created task loads are exactly the stored members whose id the request
      lists; ids with no stored member are dropped. */
  lemma CreatedTaskMembersExact(tasks: map<Uuid, Task>, events: map<Uuid, Event>, members: map<nat, Member>,
                                nextMemberId: nat, eventId: Uuid, dto: CreateTaskDto, newId: Uuid)
    requires EventsValid(events) && newId !in tasks && MembersValid(members, nextMemberId)
    requires TaskCreated(tasks, events, members, eventId, dto, newId).result.Ok?
    ensures var task := TaskCreated(tasks, events, members, eventId, dto, newId).result.value;
      forall m :: m in AssignedMembers(task, members) <==> m in members.Values && m.id in dto.assignedTo
  {
    var task := TaskCreated(tasks, events, members, eventId, dto, newId).result.value;
    AssignedMembersExact(task, members, nextMemberId);
  }

  /** A created task is found again under its event, and findAll of that event grows by it. */
  lemma CreatedTaskIsFound(tasks: map<Uuid, Task>, events: map<Uuid, Event>, members: map<nat, Member>,
                           eventId: Uuid, dto: CreateTaskDto, newId: Uuid)
    requires EventsValid(events) && newId !in tasks
    requires TaskCreated(tasks, events, members, eventId, dto, newId).result.Ok?
    ensures var w := TaskCreated(tasks, events, members, eventId, dto, newId);
      && FindOne(w.tasks, eventId, newId) == w.result
      && FindAll(w.tasks, eventId) == FindAll(tasks, eventId) + {w.result.value}
  {
    var w := TaskCreated(tasks, events, members, eventId, dto, newId);
    forall t | t in FindAll(tasks, eventId)
      ensures t in FindAll(w.tasks, eventId)
    {
      var k :| k in tasks && tasks[k] == t;
      assert w.tasks[k] == t;
    }
    assert w.tasks[newId] == w.result.value;
  }

  /** `{ ...task, ...updateTaskDto, assigned_to: assignedMembers }`: the fields the request
      carries replace the stored ones, the members are replaced, id and event are kept. */
  function Merged(task: Task, dto: UpdateTaskDto, assignedMembers: set<nat>): (t: Task)
    ensures t.id == task.id && t.eventId == task.eventId
  {
    task.(title := dto.title.GetOr(task.title),
          description := dto.description.GetOr(task.description),
          dueTime := dto.dueTime.GetOr(task.dueTime),
          assignedTo := assignedMembers)
  }

  /** A request with no field keeps every field but the members. */
  lemma MergeOfEmptyRequest(task: Task, assignedMembers: set<nat>)
    ensures Merged(task, UpdateTaskDto(None, None, None, None), assignedMembers) == task.(assignedTo := assignedMembers)
  {
  }

  /** Applying the same request twice is applying it once. */
  lemma MergeIdempotent(task: Task, dto: UpdateTaskDto, assignedMembers: set<nat>)
    ensures Merged(Merged(task, dto, assignedMembers), dto, assignedMembers) == Merged(task, dto, assignedMembers)
  {
  }

  /** The members an update assigns: an omitted `assigned_to` selects none. */
  function AssignedIds(dto: UpdateTaskDto): (ids: seq<nat>)
    ensures dto.assignedTo.Some? ==> ids == dto.assignedTo.value
    ensures dto.assignedTo.None? ==> ids == []
  {
    dto.assignedTo.GetOr([])
  }

  /** update: findOne, then the merged task is saved over the stored one. */
  function TaskUpdated(tasks: map<Uuid, Task>, members: map<nat, Member>, eventId: Uuid, taskId: Uuid,
                       dto: UpdateTaskDto): (w: TaskWrite<Task>)
    requires TasksValid(tasks)
    ensures w.result.Err? <==> FindOne(tasks, eventId, taskId).Err?
    ensures w.result.Err? ==> w.result.error == NotFound("Task not found") && w.tasks == tasks
    ensures w.result.Ok? ==>
      && w.result.value == Merged(tasks[taskId], dto, IdsIn(members, AssignedIds(dto)))
      && w.tasks == tasks[taskId := w.result.value]
    ensures AssignmentsValid(tasks, members) ==> AssignmentsValid(w.tasks, members)
  {
    match FindOne(tasks, eventId, taskId)
    case Err(e) => TaskWrite(Err(e), tasks)
    case Ok(task) =>
      var assignedMembers := IdsIn(members, AssignedIds(dto));
      var updatedTask := Merged(task, dto, assignedMembers);
      TaskWrite(Ok(updatedTask), tasks[updatedTask.id := updatedTask])
  }

  /** After an update the task is found under the same event with the merged fields, and
      every other task is as it was. */
  lemma UpdatedTaskIsFound(tasks: map<Uuid, Task>, members: map<nat, Member>, eventId: Uuid, taskId: Uuid,
                           dto: UpdateTaskDto)
    requires TasksValid(tasks)
    requires TaskUpdated(tasks, members, eventId, taskId, dto).result.Ok?
    ensures var w := TaskUpdated(tasks, members, eventId, taskId, dto);
      && FindOne(w.tasks, eventId, taskId) == w.result
      && w.tasks.Keys == tasks.Keys
      && forall k :: k in tasks && k != taskId ==> w.tasks[k] == tasks[k]
  {
  }

  /** An update whose request omits `assigned_to` leaves the task with no members, and one
      that lists ids assigns exactly the stored members among them. */
  lemma UpdateReplacesMembers(tasks: map<Uuid, Task>, members: map<nat, Member>, nextMemberId: nat,
                              eventId: Uuid, taskId: Uuid, dto: UpdateTaskDto)
    requires TasksValid(tasks) && MembersValid(members, nextMemberId)
    requires TaskUpdated(tasks, members, eventId, taskId, dto).result.Ok?
    ensures var task := TaskUpdated(tasks, members, eventId, taskId, dto).result.value;
      && (dto.assignedTo.None? ==> AssignedMembers(task, members) == {})
      && (dto.assignedTo.Some? ==>
            forall m :: m in AssignedMembers(task, members) <==> m in members.Values && m.id in dto.assignedTo.value)
  {
    var task := TaskUpdated(tasks, members, eventId, taskId, dto).result.value;
    AssignedMembersExact(task, members, nextMemberId);
  }

  /** An update keeps the task table valid. */
  lemma UpdateKeepsTasksValid(tasks: map<Uuid, Task>, members: map<nat, Member>, eventId: Uuid, taskId: Uuid,
                              dto: UpdateTaskDto)
    requires TasksValid(tasks)
    ensures TasksValid(TaskUpdated(tasks, members, eventId, taskId, dto).tasks)
  {
  }

  /** remove: findOne, then the task is deleted. */
  function TaskRemoved(tasks: map<Uuid, Task>, eventId: Uuid, taskId: Uuid): (w: TaskWrite<string>)
    requires TasksValid(tasks)
    ensures w.result.Err? <==> FindOne(tasks, eventId, taskId).Err?
    ensures w.result.Err? ==> w.result.error == NotFound("Task not found") && w.tasks == tasks
    ensures w.result.Ok? ==> w.result.value == "Task deleted successfully" && w.tasks == tasks - {taskId}
  {
    match FindOne(tasks, eventId, taskId)
    case Err(e) => TaskWrite(Err(e), tasks)
    case Ok(task) => TaskWrite(Ok("Task deleted successfully"), tasks - {task.id})
  }

  /** After a removal the task is no longer found and findAll of its event loses exactly it. */
  lemma RemovedTaskIsGone(tasks: map<Uuid, Task>, eventId: Uuid, taskId: Uuid)
    requires TasksValid(tasks)
    requires TaskRemoved(tasks, eventId, taskId).result.Ok?
    ensures var w := TaskRemoved(tasks, eventId, taskId);
      && FindOne(w.tasks, eventId, taskId) == Err(NotFound("Task not found"))
      && FindAll(w.tasks, eventId) == FindAll(tasks, eventId) - {tasks[taskId]}
  {
    var w := TaskRemoved(tasks, eventId, taskId);
    forall t | t in FindAll(tasks, eventId) && t != tasks[taskId]
      ensures t in FindAll(w.tasks, eventId)
    {
      var k :| k in tasks && tasks[k] == t;
      assert k != taskId;
      assert w.tasks[k] == t;
    }
    forall t | t in FindAll(w.tasks, eventId)
      ensures t != tasks[taskId]
    {
      var k :| k in w.tasks && w.tasks[k] == t;
      assert t.id == k;
    }
  }

  // ---------------------------------------------------------------------------
  // The service's methods, which write the task table.

  method Create(db: Database, eventId: Uuid, dto: CreateTaskDto) returns (r: Result<Task, Error>)
    requires db.Valid()
    modifies db`tasks
    ensures db.Valid()
    ensures exists newId :: newId !in old(db.tasks) &&
              TaskCreated(old(db.tasks), db.events, db.members, eventId, dto, newId) == TaskWrite(r, db.tasks)
  {
    FreshUuidExists(db.tasks);
    var newId: Uuid :| newId !in db.tasks;
    if eventId !in db.events {
      return Err(NotFound("Event not found"));
    }
    var event := db.events[eventId];
    var assignedMembers := IdsIn(db.members, dto.assignedTo);
    var task := Task(newId, dto.title, dto.description, dto.dueTime, event.id, assignedMembers);
    db.tasks := db.tasks[task.id := task];
    r := Ok(task);
  }

  method Update(db: Database, eventId: Uuid, taskId: Uuid, dto: UpdateTaskDto) returns (r: Result<Task, Error>)
    requires db.Valid()
    modifies db`tasks
    ensures db.Valid()
    ensures TaskUpdated(old(db.tasks), db.members, eventId, taskId, dto) == TaskWrite(r, db.tasks)
  {
    UpdateKeepsTasksValid(db.tasks, db.members, eventId, taskId, dto);
    var found := FindOne(db.tasks, eventId, taskId);
    if found.Err? {
      return Err(found.error);
    }
    var task := found.value;
    var assignedMembers := IdsIn(db.members, AssignedIds(dto));
    var updatedTask := Merged(task, dto, assignedMembers);
    db.tasks := db.tasks[updatedTask.id := updatedTask];
    r := Ok(updatedTask);
  }

  method Remove(db: Database, eventId: Uuid, taskId: Uuid) returns (r: Result<string, Error>)
    requires db.Valid()
    modifies db`tasks
    ensures db.Valid()
    ensures TaskRemoved(old(db.tasks), eventId, taskId) == TaskWrite(r, db.tasks)
  {
    var found := FindOne(db.tasks, eventId, taskId);
    if found.Err? {
      return Err(found.error);
    }
    db.tasks := db.tasks - {found.value.id};
    r := Ok("Task deleted successfully");
  }
}
