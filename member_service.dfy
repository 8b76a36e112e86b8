/** MemberService: members, identified towards callers by their unique email. */
module MemberService {
  import opened Entities
  import opened Store
  import TaskService

  datatype CreateMemberDto = CreateMemberDto(name: string, email: string)

  /** Every field may be left out of the request body. */
  datatype UpdateMemberDto = UpdateMemberDto(name: Option<string>, email: Option<string>)

  /** The result of a call together with the member table it leaves. */
  datatype MemberWrite<T> = MemberWrite(result: Result<T, Error>, members: map<nat, Member>, nextMemberId: nat)

  /** Some member other than the one stored under `except` has `email`: the case in which
      the unique `email` column refuses a save. */
  predicate EmailHeldByOther(members: map<nat, Member>, email: string, except: Option<nat>): (held: bool)
    ensures except.None? ==> (held <==> exists m :: m in members.Values && m.email == email)
  {
    exists k | k in members :: members[k].email == email && Some(k) != except
  }

  /** A save of `member`, refused when another member holds its email; a refused save
      changes nothing, and an accepted one keeps emails unique. */
  function Saved(members: map<nat, Member>, nextMemberId: nat, member: Member, newRow: bool): (w: MemberWrite<Member>)
    ensures w.result.Err? ==> w.members == members && w.nextMemberId == nextMemberId
    ensures w.result.Ok? ==> w.result.value == member && w.members == members[member.id := member]
    ensures UniqueMemberEmails(members) ==> UniqueMemberEmails(w.members)
  {
    if EmailHeldByOther(members, member.email, if newRow then None else Some(member.id)) then
      MemberWrite(Err(UniqueViolation("email")), members, nextMemberId)
    else
      MemberWrite(Ok(member), members[member.id := member], if newRow then nextMemberId + 1 else nextMemberId)
  }

  /** create: a member with the dto's name and email and no event. */
  function MemberCreated(members: map<nat, Member>, nextMemberId: nat, dto: CreateMemberDto): (w: MemberWrite<Member>)
    requires MembersValid(members, nextMemberId)
    ensures w.result.Err? <==> exists k :: k in members && members[k].email == dto.email
    ensures w.result.Err? ==> w.result.error == UniqueViolation("email") && w.members == members && w.nextMemberId == nextMemberId
    ensures w.result.Ok? ==>
      && w.result.value == Member(nextMemberId, dto.name, dto.email, None)
      && nextMemberId !in members
      && w.members == members[nextMemberId := w.result.value] && w.nextMemberId == nextMemberId + 1
    ensures MembersValid(w.members, w.nextMemberId)
  {
    var member := Member(nextMemberId, dto.name, dto.email, None);
    Saved(members, nextMemberId, member, true)
  }

  /** findOne: the member with that email. */
  function FindOne(members: map<nat, Member>, email: string): (r: Result<Member, Error>)
    requires UniqueMemberEmails(members)
    ensures r.Ok? <==> exists k :: k in members && members[k].email == email
    ensures r.Ok? ==> r.value in members.Values && r.value.email == email
    ensures r.Err? ==> r.error == NotFound("Member not found")
  {
    if exists k :: k in members && members[k].email == email then
      var k :| k in members && members[k].email == email;
      Ok(members[k])
    else Err(NotFound("Member not found"))
  }

  /** A created member is found by its email. */
  lemma CreatedMemberIsFound(members: map<nat, Member>, nextMemberId: nat, dto: CreateMemberDto)
    requires MembersValid(members, nextMemberId)
    requires MemberCreated(members, nextMemberId, dto).result.Ok?
    ensures var w := MemberCreated(members, nextMemberId, dto);
      FindOne(w.members, dto.email) == w.result
  {
    var w := MemberCreated(members, nextMemberId, dto);
    assert w.members[nextMemberId].email == dto.email;
  }

  /** `Object.assign(member, updateMemberDto)`: the fields the request carries replace the
      stored ones; id and event are kept. */
  function Assigned(member: Member, dto: UpdateMemberDto): (m: Member)
    ensures m.id == member.id && m.event == member.event
  {
    member.(name := dto.name.GetOr(member.name), email := dto.email.GetOr(member.email))
  }

  /** update: findOne by email (the parameter is called memberId), assign, save. */
  function MemberUpdated(members: map<nat, Member>, nextMemberId: nat, email: string, dto: UpdateMemberDto)
    : (w: MemberWrite<Member>)
    requires MembersValid(members, nextMemberId)
    ensures FindOne(members, email).Err? ==>
              w.result == Err(NotFound("Member not found")) && w.members == members && w.nextMemberId == nextMemberId
    ensures FindOne(members, email).Ok? ==>
      var member := Assigned(FindOne(members, email).value, dto);
      && (w.result.Err? <==> EmailHeldByOther(members, member.email, Some(member.id)))
      && (w.result.Err? ==> w.result.error == UniqueViolation("email") && w.members == members)
      && (w.result.Ok? ==> w.result.value == member && w.members == members[member.id := member])
      && w.nextMemberId == nextMemberId
    ensures MembersValid(w.members, w.nextMemberId)
  {
    match FindOne(members, email)
    case Err(e) => MemberWrite(Err(e), members, nextMemberId)
    case Ok(member) =>
      var updatedMember := Assigned(member, dto);
      Saved(members, nextMemberId, updatedMember, false)
  }

  /** An update with no field saves the member unchanged. */
  lemma EmptyUpdateChangesNothing(members: map<nat, Member>, nextMemberId: nat, email: string)
    requires MembersValid(members, nextMemberId)
    ensures MemberUpdated(members, nextMemberId, email, UpdateMemberDto(None, None)).members == members
  {
    var r := FindOne(members, email);
    if r.Ok? {
      var k :| k in members && members[k] == r.value;
      assert members[k := r.value] == members;
    }
  }

  /** After an update the member is found by its email, old or new, with the merged fields. */
  lemma UpdatedMemberIsFound(members: map<nat, Member>, nextMemberId: nat, email: string, dto: UpdateMemberDto)
    requires MembersValid(members, nextMemberId)
    requires MemberUpdated(members, nextMemberId, email, dto).result.Ok?
    ensures var w := MemberUpdated(members, nextMemberId, email, dto);
      FindOne(w.members, w.result.value.email) == w.result
  {
    var w := MemberUpdated(members, nextMemberId, email, dto);
    assert w.members[w.result.value.id] == w.result.value;
  }

  /** Deleting member `id` deletes its rows of the `assigned_to` join table, whose foreign
      key cascades on delete: every task loses that assignment and keeps the others. */
  function Unassigned(tasks: map<Uuid, Task>, id: nat): (r: map<Uuid, Task>)
    ensures r.Keys == tasks.Keys
    ensures forall k :: k in r ==> r[k] == tasks[k].(assignedTo := tasks[k].assignedTo - {id})
  {
    map k | k in tasks :: tasks[k].(assignedTo := tasks[k].assignedTo - {id})
  }

  /** The result of remove together with the member and task tables it leaves. */
  datatype MemberRemoval = MemberRemoval(result: Result<string, Error>, members: map<nat, Member>, tasks: map<Uuid, Task>)

  /** remove: findOne by email, then the member is deleted with its assignments. */
  function MemberRemoved(members: map<nat, Member>, nextMemberId: nat, tasks: map<Uuid, Task>, email: string)
    : (w: MemberRemoval)
    requires MembersValid(members, nextMemberId)
    ensures w.result.Err? <==> FindOne(members, email).Err?
    ensures w.result.Err? ==> w.result.error == NotFound("Member not found") && w.members == members && w.tasks == tasks
    ensures w.result.Ok? ==>
      var gone := FindOne(members, email).value.id;
      && w.result.value == "Member removed successfully"
      && w.members == members - {gone}
      && w.tasks == Unassigned(tasks, gone)
    ensures MembersValid(w.members, nextMemberId)
    ensures TasksValid(tasks) ==> TasksValid(w.tasks)
    ensures AssignmentsValid(tasks, members) ==> AssignmentsValid(w.tasks, w.members)
  {
    match FindOne(members, email)
    case Err(e) => MemberRemoval(Err(e), members, tasks)
    case Ok(member) =>
      MemberRemoval(Ok("Member removed successfully"), members - {member.id}, Unassigned(tasks, member.id))
  }

  /** After a removal no member has that email, and every other member is kept. */
  lemma RemovedMemberIsGone(members: map<nat, Member>, nextMemberId: nat, tasks: map<Uuid, Task>, email: string)
    requires MembersValid(members, nextMemberId)
    requires MemberRemoved(members, nextMemberId, tasks, email).result.Ok?
    ensures var w := MemberRemoved(members, nextMemberId, tasks, email);
      && FindOne(w.members, email) == Err(NotFound("Member not found"))
      && forall k :: k in members && members[k].email != email ==> k in w.members && w.members[k] == members[k]
  {
    var w := MemberRemoved(members, nextMemberId, tasks, email);
    var gone := FindOne(members, email).value;
    var g :| g in members && members[g] == gone;
    forall k | k in w.members
      ensures w.members[k].email != email
    {
      assert k != g;
    }
  }

  /** After a removal every task loads the members it loaded before except the removed one. */
  lemma RemovedMemberIsUnassigned(members: map<nat, Member>, nextMemberId: nat, tasks: map<Uuid, Task>, email: string)
    requires MembersValid(members, nextMemberId)
    requires MemberRemoved(members, nextMemberId, tasks, email).result.Ok?
    ensures var w := MemberRemoved(members, nextMemberId, tasks, email);
      forall k :: k in tasks ==>
        && k in w.tasks
        && TaskService.AssignedMembers(w.tasks[k], w.members)
             == TaskService.AssignedMembers(tasks[k], members) - {FindOne(members, email).value}
  {
    var w := MemberRemoved(members, nextMemberId, tasks, email);
    var gone := FindOne(members, email).value;
    var g :| g in members && members[g] == gone;
    forall k | k in tasks
      ensures TaskService.AssignedMembers(w.tasks[k], w.members)
                == TaskService.AssignedMembers(tasks[k], members) - {gone}
    {
      var before := TaskService.AssignedMembers(tasks[k], members);
      var after := TaskService.AssignedMembers(w.tasks[k], w.members);
      forall m | m in after
        ensures m in before && m != gone
      {
        var j :| j in w.tasks[k].assignedTo && j in w.members && w.members[j] == m;
        assert m.id == j && gone.id == g;
      }
      forall m | m in before && m != gone
        ensures m in after
      {
        var j :| j in tasks[k].assignedTo && j in members && members[j] == m;
        assert j != g;
        assert j in w.tasks[k].assignedTo && j in w.members && w.members[j] == m;
      }
    }
  }

  /** After an update every task assigned that member loads the updated member in place of
      the old one, as the join table refers to the member by id. */
  lemma UpdatedMemberShownInTasks(members: map<nat, Member>, nextMemberId: nat, email: string, dto: UpdateMemberDto,
                                  task: Task)
    requires MembersValid(members, nextMemberId)
    requires MemberUpdated(members, nextMemberId, email, dto).result.Ok?
    requires FindOne(members, email).value.id in task.assignedTo
    ensures var w := MemberUpdated(members, nextMemberId, email, dto);
      TaskService.AssignedMembers(task, w.members)
        == TaskService.AssignedMembers(task, members) - {FindOne(members, email).value} + {w.result.value}
  {
    var w := MemberUpdated(members, nextMemberId, email, dto);
    var previous := FindOne(members, email).value;
    var updated := w.result.value;
    var g :| g in members && members[g] == previous;
    var before := TaskService.AssignedMembers(task, members);
    var after := TaskService.AssignedMembers(task, w.members);
    forall m | m in after
      ensures m in before - {previous} + {updated}
    {
      var j :| j in task.assignedTo && j in w.members && w.members[j] == m;
      if j != g {
        assert members[j] == m && m.id == j && previous.id == g;
      }
    }
    forall m | m in before - {previous} + {updated}
      ensures m in after
    {
      if m == updated {
        assert g in task.assignedTo && w.members[g] == updated;
      } else {
        var j :| j in task.assignedTo && j in members && members[j] == m;
        assert j != g;
        assert w.members[j] == m;
      }
    }
  }

  // ---------------------------------------------------------------------------
  // The service's methods, which write the member table.

  method Create(db: Database, dto: CreateMemberDto) returns (r: Result<Member, Error>)
    requires db.Valid()
    modifies db`members, db`nextMemberId
    ensures db.Valid()
    ensures MemberCreated(old(db.members), old(db.nextMemberId), dto) == MemberWrite(r, db.members, db.nextMemberId)
  {
    var member := Member(db.nextMemberId, dto.name, dto.email, None);
    if EmailHeldByOther(db.members, member.email, None) {
      return Err(UniqueViolation("email"));
    }
    db.members := db.members[member.id := member];
    db.nextMemberId := db.nextMemberId + 1;
    r := Ok(member);
  }

  method Update(db: Database, memberId: string, dto: UpdateMemberDto) returns (r: Result<Member, Error>)
    requires db.Valid()
    modifies db`members
    ensures db.Valid()
    ensures MemberUpdated(old(db.members), db.nextMemberId, memberId, dto) == MemberWrite(r, db.members, db.nextMemberId)
  {
    var found := FindOne(db.members, memberId);
    if found.Err? {
      return Err(found.error);
    }
    var member := found.value;
    if dto.name.Some? {
      member := member.(name := dto.name.value);
    }
    if dto.email.Some? {
      member := member.(email := dto.email.value);
    }
    if EmailHeldByOther(db.members, member.email, Some(member.id)) {
      return Err(UniqueViolation("email"));
    }
    db.members := db.members[member.id := member];
    r := Ok(member);
  }

  method Remove(db: Database, email: string) returns (r: Result<string, Error>)
    requires db.Valid()
    modifies db`members, db`tasks
    ensures db.Valid()
    ensures MemberRemoved(old(db.members), db.nextMemberId, old(db.tasks), email) == MemberRemoval(r, db.members, db.tasks)
  {
    var found := FindOne(db.members, email);
    if found.Err? {
      return Err(found.error);
    }
    db.members := db.members - {found.value.id};
    db.tasks := Unassigned(db.tasks, found.value.id);
    r := Ok("Member removed successfully");
  }
}
