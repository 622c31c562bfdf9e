/** The calendar routes: the list of active events with an optional type and
    date filter in start order, the single event, and creation, update and
    deletion by faculty (own events) and admins (any event).
    Line numbers in the comments below refer to backend/routes/calendar.js. */
module CalendarRoute {
  import opened Wrappers
  import opened Ordering
  import opened Common
  import opened CalendarEvent
  import opened Database

  // ---------------------------------------------------------------------------------------
  // Listing

  /** The query string: an empty `eventType` and a missing date are parameters not given. */
  datatype EventQuery = EventQuery(eventType: string, startDate: Option<int>, endDate: Option<int>)

  /** Lines 17-25: with either bound given the event must satisfy at least one of the
      clauses pushed onto `$or`, starting on or after `startDate` or ending on or before
      `endDate`. */
  predicate InWindow(e: Event, q: EventQuery)
  {
    (q.startDate.None? && q.endDate.None?) ||
    (q.startDate.Some? && e.startDate >= q.startDate.value) ||
    (q.endDate.Some? && e.endDate <= q.endDate.value)
  }

  predicate EventListed(e: Event, q: EventQuery)
  {
    e.isActive && (q.eventType != "" ==> e.eventType == q.eventType) && InWindow(e, q)
  }

  function EventListedBy(q: EventQuery): Event -> bool
  {
    e => EventListed(e, q)
  }

  /** The key that makes the newest-first sort an ascending sort on `startDate`. */
  function EarlierFirst(e: Event): int { -e.startDate }

  datatype EventListing = EventListing(events: seq<Event>, count: int)

  /** `GET /api/calendar`: the matching events sorted by `startDate` ascending. */
  function ListEvents(events: seq<Event>, q: EventQuery): EventListing
  {
    var listed := SortDesc(Filter(events, EventListedBy(q)), EarlierFirst);
    EventListing(listed, |listed|)
  }

  /** Exactly the active events of the type that meet the date clause are listed, each as
      often as it is stored, earliest start first, and `count` is their number. */
  lemma ListEventsFacts(events: seq<Event>, q: EventQuery)
    ensures var r := ListEvents(events, q);
      r.count == |r.events| &&
      (forall e :: e in r.events <==> e in events && EventListed(e, q)) &&
      (forall i, j :: 0 <= i < j < |r.events| ==> r.events[i].startDate <= r.events[j].startDate) &&
      multiset(r.events) == multiset(Filter(events, EventListedBy(q)))
  {
    var f := Filter(events, EventListedBy(q));
    var r := ListEvents(events, q);
    SortDescFacts(f, EarlierFirst);
    forall e ensures e in r.events <==> e in f {
      assert e in r.events <==> e in multiset(r.events);
      assert e in f <==> e in multiset(f);
    }
    forall i, j | 0 <= i < j < |r.events| ensures r.events[i].startDate <= r.events[j].startDate {
      assert EarlierFirst(r.events[i]) >= EarlierFirst(r.events[j]);
    }
  }

  /** With both bounds given the clauses are alternatives, not a window: an event that
      starts after the end bound is listed all the same. */
  lemma BoundsAreAlternatives(events: seq<Event>, e: Event, from: int, to: int)
    requires e in events && e.isActive && e.startDate >= from && e.startDate > to
    ensures e in ListEvents(events, EventQuery("", Some(from), Some(to))).events
  {
    ListEventsFacts(events, EventQuery("", Some(from), Some(to)));
  }

  /** Without date parameters the list is every active event of the type. */
  lemma NoBoundsListsAllActive(events: seq<Event>, eventType: string, e: Event)
    ensures e in ListEvents(events, EventQuery(eventType, None, None)).events <==>
      (e in events && e.isActive && (eventType != "" ==> e.eventType == eventType))
  {
    ListEventsFacts(events, EventQuery(eventType, None, None));
  }

  // ---------------------------------------------------------------------------------------
  // Single event

  /** `GET /api/calendar/:id`: a lookup by id alone, so a deactivated event is still
      returned. */
  function GetEvent(events: seq<Event>, id: string): (r: Reply<Event>)
    ensures r.Success? <==> Locate(events, id, EventId).Success?
    ensures r.Success? ==> r.value in events && r.value.id == id
    ensures r.NotFound? <==> Locate(events, id, EventId).NotFound?
    ensures r.ServerError? <==> !IsObjectId(id)
  {
    match Locate(events, id, EventId)
    case Success(k) => Success(events[k])
    case NotFound => NotFound
    case Forbidden => Forbidden
    case BadRequest => BadRequest
    case ServerError => ServerError
  }

  // ---------------------------------------------------------------------------------------
  // Create, update, delete

  function EventCreator(e: Event): string { e.createdBy }

  /** The body of `POST /api/calendar`. */
  datatype NewEventBody = NewEventBody(
    title: string, description: Option<string>, startDate: int, endDate: int, eventType: Option<string>)

  /** Lines 74-81: the stored event; the type falls back to `'other'` and the creator is the
      caller. */
  function CreatedEvent(actor: Actor, id: string, body: NewEventBody): (e: Event)
    ensures e.id == id && e.createdBy == actor.id && e.isActive
    ensures e.title == body.title && e.startDate == body.startDate && e.endDate == body.endDate
    ensures e.eventType == (if Given(body.eventType) then body.eventType.value else "other")
  {
    Event(id, body.title, body.description, body.startDate, body.endDate,
          OrElse(body.eventType, "other"), actor.id, true)
  }

  /** `authorize('admin', 'faculty')`, then the record is appended under the fresh id. */
  method CreateEvent(db: Store, actor: Actor, id: string, body: NewEventBody) returns (r: Reply<Event>)
    modifies db
    ensures actor.role == Student ==> r == Forbidden && db.events == old(db.events)
    ensures actor.role != Student ==> r == Success(CreatedEvent(actor, id, body)) && db.events == old(db.events) + [r.value]
    ensures db.users == old(db.users) && db.documents == old(db.documents) && db.notices == old(db.notices) && db.files == old(db.files)
  {
    if actor.role == Student {
      return Forbidden;
    }
    var e := CreatedEvent(actor, id, body);
    db.events := db.events + [e];
    r := Success(e);
  }

  /** A created event under a fresh id can be fetched back, and it is listed when no filter
      is given. */
  lemma CreatedEventIsFound(events: seq<Event>, actor: Actor, id: string, body: NewEventBody)
    requires IsObjectId(id) && forall j :: 0 <= j < |events| ==> events[j].id != id
    ensures GetEvent(events + [CreatedEvent(actor, id, body)], id) == Success(CreatedEvent(actor, id, body))
    ensures CreatedEvent(actor, id, body) in ListEvents(events + [CreatedEvent(actor, id, body)], EventQuery("", None, None)).events
  {
    var e := CreatedEvent(actor, id, body);
    var s := events + [e];
    assert s[|events|] == e;
    var r := Locate(s, id, EventId);
    assert r.Success?;
    assert r.value == |events|;
    NoBoundsListsAllActive(s, "", e);
  }

  /** The body of `PUT /api/calendar/:id`: missing or empty fields keep the stored value. */
  datatype EventPatch = EventPatch(
    title: Option<string>, description: Option<string>, startDate: Option<int>, endDate: Option<int>,
    eventType: Option<string>)

  /** Lines 121-125: each field is replaced only by a non-empty value. */
  function MergeEvent(e: Event, p: EventPatch): (m: Event)
    ensures m.id == e.id && m.createdBy == e.createdBy && m.isActive == e.isActive
  {
    e.(title := OrElse(p.title, e.title),
       description := if Given(p.description) then p.description else e.description,
       startDate := ValueOr(p.startDate, e.startDate),
       endDate := ValueOr(p.endDate, e.endDate),
       eventType := OrElse(p.eventType, e.eventType))
  }

  /** An empty patch changes nothing, an empty string is the same as a missing field, each
      non-empty field is written and each falsy one kept, no patch can clear the title or
      the description, and applying a patch twice is applying it once. */
  lemma MergeEventFacts(e: Event, p: EventPatch)
    ensures MergeEvent(e, EventPatch(None, None, None, None, None)) == e
    ensures MergeEvent(e, p.(title := Some(""), eventType := Some(""))) == MergeEvent(e, p.(title := None, eventType := None))
    ensures Given(p.title) ==> MergeEvent(e, p).title == p.title.value
    ensures !Given(p.title) ==> MergeEvent(e, p).title == e.title
    ensures Given(p.description) ==> MergeEvent(e, p).description == p.description
    ensures !Given(p.description) ==> MergeEvent(e, p).description == e.description
    ensures p.startDate.Some? ==> MergeEvent(e, p).startDate == p.startDate.value
    ensures p.startDate.None? ==> MergeEvent(e, p).startDate == e.startDate
    ensures p.endDate.Some? ==> MergeEvent(e, p).endDate == p.endDate.value
    ensures p.endDate.None? ==> MergeEvent(e, p).endDate == e.endDate
    ensures Given(p.eventType) ==> MergeEvent(e, p).eventType == p.eventType.value
    ensures !Given(p.eventType) ==> MergeEvent(e, p).eventType == e.eventType
    ensures e.title != "" ==> MergeEvent(e, p).title != ""
    ensures e.description.Some? ==> MergeEvent(e, p).description.Some?
    ensures MergeEvent(MergeEvent(e, p), p) == MergeEvent(e, p)
  {
  }

  method UpdateEvent(db: Store, actor: Actor, id: string, p: EventPatch) returns (r: Reply<Event>)
    modifies db
    ensures var g := EditGate(old(db.events), actor, id, EventId, EventCreator);
      (g.Success? ==> r == Success(MergeEvent(old(db.events)[g.value], p)) &&
                      db.events == old(db.events)[g.value := r.value]) &&
      (!g.Success? ==> r == Propagate(g) && db.events == old(db.events))
    ensures db.users == old(db.users) && db.documents == old(db.documents) && db.notices == old(db.notices) && db.files == old(db.files)
  {
    var g := EditGate(db.events, actor, id, EventId, EventCreator);
    if !g.Success? {
      return Propagate(g);
    }
    var e := MergeEvent(db.events[g.value], p);
    db.events := db.events[g.value := e];
    r := Success(e);
  }

  method DeleteEvent(db: Store, actor: Actor, id: string) returns (r: Reply<nat>)
    modifies db
    ensures r == EditGate(old(db.events), actor, id, EventId, EventCreator)
    ensures r.Success? ==> db.events == RemoveAt(old(db.events), r.value)
    ensures !r.Success? ==> db.events == old(db.events)
    ensures db.users == old(db.users) && db.documents == old(db.documents) && db.notices == old(db.notices) && db.files == old(db.files)
  {
    r := EditGate(db.events, actor, id, EventId, EventCreator);
    if r.Success? {
      db.events := RemoveAt(db.events, r.value);
    }
  }

  /** A faculty member may change or delete only an event they created, an admin any
      existing event, a student none. */
  lemma EventEditRights(events: seq<Event>, actor: Actor, id: string)
    ensures var g := EditGate(events, actor, id, EventId, EventCreator);
      (g.Success? && actor.role == Faculty ==> events[g.value].createdBy == actor.id) &&
      (actor.role == Admin ==> (g.Success? <==> Locate(events, id, EventId).Success?)) &&
      (actor.role == Student ==> g == Forbidden)
  {
  }
}
