/**
 * EventMapper: the Event entity to its short and full views, a NewEventDto
 * to a fresh Event, and the two partial updates that copy the non-null
 * fields of an edit request onto an event.  Date-times stay instants here;
 * their text form is DateTimeMapper's.
 */
module EventMapper {
  import opened Common
  import opened Events

  /** EventShortDto; category and initiator are the referenced ids. */
  datatype EventShortDto = EventShortDto(
    annotation: string,
    category: int,
    confirmedRequests: int,
    eventDate: int,
    id: Option<int>,
    initiator: int,
    paid: Option<bool>,
    title: string,
    views: int)

  /** EventFullDto; `state` is the state's name, or null. */
  datatype EventFullDto = EventFullDto(
    annotation: string,
    category: int,
    confirmedRequests: int,
    createdOn: Option<int>,
    description: string,
    eventDate: int,
    id: Option<int>,
    initiator: int,
    location: Coordinates,
    paid: Option<bool>,
    participantLimit: Option<int>,
    publishedOn: Option<int>,
    requestModeration: Option<bool>,
    state: Option<string>,
    title: string,
    views: int)

  /** EventState.valueOf: the state with the given name. */
  function StateValueOf(name: string): (r: Option<EventState>)
    ensures r.Some? ==> StateName(r.value) == name
  {
    if name == "PENDING" then Some(PENDING)
    else if name == "PUBLISHED" then Some(PUBLISHED)
    else if name == "CANCELED" then Some(CANCELED)
    else None
  }

  /** A state's name reads back as that state, so the full view's state
      names the event's state unambiguously. */
  lemma StateNameRoundTrip(s: EventState)
    ensures StateValueOf(StateName(s)) == Some(s)
  {
  }

  /** toShortDto. */
  function ToShortDto(e: Event, confirmedRequests: int, views: int): (d: EventShortDto)
    ensures d.confirmedRequests == confirmedRequests && d.views == views
  {
    EventShortDto(e.annotation, e.category, confirmedRequests, e.eventDate, e.id, e.initiator,
                  e.paid, e.title, views)
  }

  /** toFullDto. */
  function ToFullDto(e: Event, confirmedRequests: int, views: int): (d: EventFullDto)
    ensures d.confirmedRequests == confirmedRequests && d.views == views
    ensures d.state.None? <==> e.state.None?
    ensures e.state.Some? ==> StateValueOf(d.state.value) == e.state
  {
    StateNameRoundTrip(if e.state.Some? then e.state.value else PENDING);
    EventFullDto(e.annotation, e.category, confirmedRequests, e.createdOn, e.description, e.eventDate,
                 e.id, e.initiator, e.location, e.paid, e.participantLimit, e.publishedOn,
                 e.requestModeration, if e.state.None? then None else Some(StateName(e.state.value)),
                 e.title, views)
  }

  /** The short view is the full view with fields left out. */
  lemma ShortIsPartOfFull(e: Event, confirmedRequests: int, views: int)
    ensures var s := ToShortDto(e, confirmedRequests, views);
      var f := ToFullDto(e, confirmedRequests, views);
      s == EventShortDto(f.annotation, f.category, f.confirmedRequests, f.eventDate, f.id, f.initiator,
                         f.paid, f.title, f.views)
  {
  }

  /** fromNew: the event the body describes, with the given category,
      initiator and location; id, createdOn, publishedOn and state are left
      unset.  Parsing an eventDate that is no date-time throws. */
  function FromNew(dto: NewEventDto, category: int, initiator: int, location: Coordinates): (r: Result<Event>)
    ensures r.Err? <==> dto.eventDate.Unparseable?
    ensures r.Err? ==> r.error == DateTimeParse
    ensures r.Ok? ==>
      r.value.id.None? && r.value.createdOn.None? && r.value.publishedOn.None? && r.value.state.None?
      && r.value.category == category && r.value.initiator == initiator && r.value.location == location
      && r.value.eventDate == dto.eventDate.at
  {
    match dto.eventDate
    case Unparseable => Err(DateTimeParse)
    case Text(at) =>
      Ok(Event(None, dto.annotation, category, dto.description, at, initiator, location, dto.paid,
               dto.participantLimit, dto.requestModeration, dto.title, None, None, None))
  }

  /** A non-null source value replaces the target's, a null one leaves it. */
  function Keep<T>(source: Option<T>, current: T): T
  {
    if source.Some? then source.value else current
  }

  /** The fields both partial updates copy, and nothing else: annotation,
      description, title, paid, participantLimit, requestModeration and
      eventDate, each only when the request gives it. */
  ghost predicate PatchedFrom(e: Event, r: Event, annotation: Option<string>, description: Option<string>,
                              title: Option<string>, paid: Option<bool>, participantLimit: Option<int>,
                              requestModeration: Option<bool>, eventDate: Option<DateText>)
  {
    && (annotation.Some? ==> r.annotation == annotation.value)
    && (annotation.None? ==> r.annotation == e.annotation)
    && (description.Some? ==> r.description == description.value)
    && (description.None? ==> r.description == e.description)
    && (title.Some? ==> r.title == title.value)
    && (title.None? ==> r.title == e.title)
    && (paid.Some? ==> r.paid == paid)
    && (paid.None? ==> r.paid == e.paid)
    && (participantLimit.Some? ==> r.participantLimit == participantLimit)
    && (participantLimit.None? ==> r.participantLimit == e.participantLimit)
    && (requestModeration.Some? ==> r.requestModeration == requestModeration)
    && (requestModeration.None? ==> r.requestModeration == e.requestModeration)
    && (eventDate.Some? ==> eventDate.value.Text? && r.eventDate == eventDate.value.at)
    && (eventDate.None? ==> r.eventDate == e.eventDate)
    // everything else is untouched
    && r.id == e.id && r.category == e.category && r.initiator == e.initiator
    && r.location == e.location && r.state == e.state
    && r.createdOn == e.createdOn && r.publishedOn == e.publishedOn
  }

  /** updateFromUser. */
  function UpdateFromUser(dto: UpdateEventUserRequest, e: Event): (r: Result<Event>)
    ensures r.Err? <==> dto.eventDate == Some(Unparseable)
    ensures r.Err? ==> r.error == DateTimeParse
    ensures r.Ok? ==> PatchedFrom(e, r.value, dto.annotation, dto.description, dto.title, dto.paid,
                                  dto.participantLimit, dto.requestModeration, dto.eventDate)
  {
    if dto.eventDate == Some(Unparseable) then Err(DateTimeParse)
    else Ok(e.(annotation := Keep(dto.annotation, e.annotation),
               description := Keep(dto.description, e.description),
               title := Keep(dto.title, e.title),
               paid := if dto.paid.Some? then dto.paid else e.paid,
               participantLimit := if dto.participantLimit.Some? then dto.participantLimit else e.participantLimit,
               requestModeration := if dto.requestModeration.Some? then dto.requestModeration else e.requestModeration,
               eventDate := if dto.eventDate.Some? then dto.eventDate.value.at else e.eventDate))
  }

  /** The fields of an admin request that the mapper copies, as a user
      request; category, location and the action are applied elsewhere. */
  function MappedFields(dto: UpdateEventAdminRequest): UpdateEventUserRequest
  {
    UpdateEventUserRequest(dto.annotation, None, dto.description, dto.eventDate, None, dto.paid,
                           dto.participantLimit, dto.requestModeration, None, dto.title)
  }

  /** updateFromAdmin: the same fields and null handling as updateFromUser. */
  function UpdateFromAdmin(dto: UpdateEventAdminRequest, e: Event): (r: Result<Event>)
    ensures r.Err? <==> dto.eventDate == Some(Unparseable)
    ensures r.Err? ==> r.error == DateTimeParse
    ensures r.Ok? ==> PatchedFrom(e, r.value, dto.annotation, dto.description, dto.title, dto.paid,
                                  dto.participantLimit, dto.requestModeration, dto.eventDate)
  {
    UpdateFromUser(MappedFields(dto), e)
  }

  /** The patched fields determine the result: two updates that agree on
      them give the same event. */
  lemma PatchDetermined(e: Event, r1: Event, r2: Event, annotation: Option<string>, description: Option<string>,
                        title: Option<string>, paid: Option<bool>, participantLimit: Option<int>,
                        requestModeration: Option<bool>, eventDate: Option<DateText>)
    requires PatchedFrom(e, r1, annotation, description, title, paid, participantLimit, requestModeration, eventDate)
    requires PatchedFrom(e, r2, annotation, description, title, paid, participantLimit, requestModeration, eventDate)
    ensures r1 == r2
  {
  }

  /** An admin request and a user request that carry the same field values
      change an event the same way. */
  lemma AdminPatchesLikeUser(a: UpdateEventAdminRequest, u: UpdateEventUserRequest, e: Event)
    requires a.annotation == u.annotation && a.description == u.description && a.title == u.title
    requires a.paid == u.paid && a.participantLimit == u.participantLimit
    requires a.requestModeration == u.requestModeration && a.eventDate == u.eventDate
    ensures UpdateFromAdmin(a, e) == UpdateFromUser(u, e)
  {
    var ra := UpdateFromAdmin(a, e);
    var ru := UpdateFromUser(u, e);
    if ra.Ok? {
      PatchDetermined(e, ra.value, ru.value, a.annotation, a.description, a.title, a.paid,
                      a.participantLimit, a.requestModeration, a.eventDate);
    }
  }

  /** Applying the same user update twice changes nothing more. */
  lemma UpdateFromUserIdempotent(dto: UpdateEventUserRequest, e: Event)
    requires UpdateFromUser(dto, e).Ok?
    ensures UpdateFromUser(dto, UpdateFromUser(dto, e).value) == UpdateFromUser(dto, e)
  {
    var once := UpdateFromUser(dto, e).value;
    var twice := UpdateFromUser(dto, once).value;
    PatchDetermined(once, twice, once, dto.annotation, dto.description, dto.title, dto.paid,
                    dto.participantLimit, dto.requestModeration, dto.eventDate);
  }

  /** A request with every field null leaves the event as it was. */
  lemma EmptyUserUpdate(e: Event)
    ensures UpdateFromUser(UpdateEventUserRequest(None, None, None, None, None, None, None, None, None, None), e)
            == Ok(e)
  {
  }
}
