/** EventService: events, each created by a user. */
module EventService {
  import opened Entities
  import opened Store

  datatype CreateEventDto = CreateEventDto(name: string, location: string, startTime: Timestamp, endTime: Timestamp)

  /** Every field may be left out of the request body. */
  datatype UpdateEventDto = UpdateEventDto(
    name: Option<string>,
    location: Option<string>,
    startTime: Option<Timestamp>,
    endTime: Option<Timestamp>)

  /** The result of a call together with the event table it leaves. */
  datatype EventWrite<T> = EventWrite(result: Result<T, Error>, events: map<Uuid, Event>)

  /** create: the dto's fields, `created_by` the given user; `newId` is the uuid the
      database assigns. */
  function EventCreated(events: map<Uuid, Event>, dto: CreateEventDto, createdBy: User, newId: Uuid)
    : (w: EventWrite<Event>)
    requires newId !in events
    ensures w.result.Ok?
    ensures var event := w.result.value;
      && event.id == newId && event.createdBy == createdBy.userId
      && event.name == dto.name && event.location == dto.location
      && event.startTime == dto.startTime && event.endTime == dto.endTime
      && w.events == events[newId := event]
    ensures EventsValid(events) ==> EventsValid(w.events)
  {
    var event := Event(newId, dto.name, dto.location, dto.startTime, dto.endTime, createdBy.userId);
    EventWrite(Ok(event), events[event.id := event])
  }

  /** findAll: every stored event. */
  function FindAll(events: map<Uuid, Event>): (r: set<Event>)
    ensures forall e :: e in r <==> exists k :: k in events && events[k] == e
  {
    events.Values
  }

  /** findOne: the event stored under `id`. */
  function FindOne(events: map<Uuid, Event>, id: Uuid): (r: Result<Event, Error>)
    ensures r.Err? ==> r.error == NotFound("Event not found")
  {
    if id in events then Ok(events[id]) else Err(NotFound("Event not found"))
  }

  /** findOne succeeds exactly for the ids of the events findAll lists. */
  lemma FindOneWithinFindAll(events: map<Uuid, Event>, id: Uuid)
    requires EventsValid(events)
    ensures FindOne(events, id).Ok? <==> exists e :: e in FindAll(events) && e.id == id
    ensures FindOne(events, id).Ok? ==> FindOne(events, id).value in FindAll(events) && FindOne(events, id).value.id == id
  {
    if e :| e in FindAll(events) && e.id == id {
      var k :| k in events && events[k] == e;
    }
  }

  /** A created event is found again under its id and listed by findAll. */
  lemma CreatedEventIsFound(events: map<Uuid, Event>, dto: CreateEventDto, createdBy: User, newId: Uuid)
    requires newId !in events
    ensures var w := EventCreated(events, dto, createdBy, newId);
      && FindOne(w.events, newId) == w.result
      && FindAll(w.events) == FindAll(events) + {w.result.value}
  {
    var w := EventCreated(events, dto, createdBy, newId);
    forall e | e in FindAll(events)
      ensures e in FindAll(w.events)
    {
      var k :| k in events && events[k] == e;
      assert w.events[k] == e;
    }
    assert w.events[newId] == w.result.value;
  }

  /** `update(id, dto)`: the columns the request carries are overwritten in the row whose
      id is `id`, if any. */
  function Overwritten(event: Event, dto: UpdateEventDto): (e: Event)
    ensures e.id == event.id && e.createdBy == event.createdBy
  {
    event.(name := dto.name.GetOr(event.name),
           location := dto.location.GetOr(event.location),
           startTime := dto.startTime.GetOr(event.startTime),
           endTime := dto.endTime.GetOr(event.endTime))
  }

  /** update: the row is overwritten, then re-read with findOne; an unknown id matches no
      row and the re-read fails. */
  function EventUpdated(events: map<Uuid, Event>, id: Uuid, dto: UpdateEventDto): (w: EventWrite<Event>)
    ensures w.result.Err? <==> id !in events
    ensures w.result.Err? ==> w.result.error == NotFound("Event not found") && w.events == events
    ensures w.result.Ok? ==> w.result.value == Overwritten(events[id], dto) && w.events == events[id := w.result.value]
    ensures w.result == FindOne(w.events, id)
    ensures EventsValid(events) ==> EventsValid(w.events)
  {
    var updated := if id in events then events[id := Overwritten(events[id], dto)] else events;
    EventWrite(FindOne(updated, id), updated)
  }

  /** Updating with the same request twice is updating once. */
  lemma UpdateIdempotent(events: map<Uuid, Event>, id: Uuid, dto: UpdateEventDto)
    ensures var w := EventUpdated(events, id, dto);
      EventUpdated(w.events, id, dto) == w
  {
  }

  /** remove: findOne, then the event is deleted. */
  function EventRemoved(events: map<Uuid, Event>, id: Uuid): (w: EventWrite<string>)
    requires EventsValid(events)
    ensures w.result.Err? <==> id !in events
    ensures w.result.Err? ==> w.result.error == NotFound("Event not found") && w.events == events
    ensures w.result.Ok? ==> w.result.value == "Event deleted successfully" && w.events == events - {id}
  {
    match FindOne(events, id)
    case Err(e) => EventWrite(Err(e), events)
    case Ok(event) => EventWrite(Ok("Event deleted successfully"), events - {event.id})
  }

  /** After a removal the event is no longer found and findAll loses exactly it. */
  lemma RemovedEventIsGone(events: map<Uuid, Event>, id: Uuid)
    requires EventsValid(events) && id in events
    ensures var w := EventRemoved(events, id);
      && FindOne(w.events, id) == Err(NotFound("Event not found"))
      && FindAll(w.events) == FindAll(events) - {events[id]}
  {
    var w := EventRemoved(events, id);
    forall e | e in FindAll(events) && e != events[id]
      ensures e in FindAll(w.events)
    {
      var k :| k in events && events[k] == e;
      assert w.events[k] == e;
    }
    forall e | e in FindAll(w.events)
      ensures e != events[id]
    {
      var k :| k in w.events && w.events[k] == e;
      assert e.id == k;
    }
  }

  // ---------------------------------------------------------------------------
  // The service's methods, which write the event table.

  method Create(db: Database, dto: CreateEventDto, createdBy: User) returns (r: Event)
    requires db.Valid()
    modifies db`events
    ensures db.Valid()
    ensures exists newId :: newId !in old(db.events) &&
              EventCreated(old(db.events), dto, createdBy, newId) == EventWrite(Ok(r), db.events)
  {
    FreshUuidExists(db.events);
    var newId: Uuid :| newId !in db.events;
    var event := Event(newId, dto.name, dto.location, dto.startTime, dto.endTime, createdBy.userId);
    db.events := db.events[event.id := event];
    r := event;
  }

  method Update(db: Database, id: Uuid, dto: UpdateEventDto) returns (r: Result<Event, Error>)
    requires db.Valid()
    modifies db`events
    ensures db.Valid()
    ensures EventUpdated(old(db.events), id, dto) == EventWrite(r, db.events)
  {
    if id in db.events {
      db.events := db.events[id := Overwritten(db.events[id], dto)];
    }
    r := FindOne(db.events, id);
  }

  method Remove(db: Database, id: Uuid) returns (r: Result<string, Error>)
    requires db.Valid()
    modifies db`events
    ensures db.Valid()
    ensures EventRemoved(old(db.events), id) == EventWrite(r, db.events)
  {
    var found := FindOne(db.events, id);
    if found.Err? {
      return Err(found.error);
    }
    db.events := db.events - {found.value.id};
    r := Ok("Event deleted successfully");
  }
}
