/**
 * The Event entity, the request bodies that create and edit it, and the
 * event table.  Events are never deleted by the core, and the table hands
 * out ids 1, 2, 3, ... in insertion order, so the row of event `id` is the
 * element at position `id - 1`.
 */
module Events {
  import opened Common

  datatype EventState = PENDING | PUBLISHED | CANCELED

  /** EventState.name(). */
  function StateName(s: EventState): string
  {
    match s
    case PENDING => "PENDING"
    case PUBLISHED => "PUBLISHED"
    case CANCELED => "CANCELED"
  }

  /** The coordinates of a saved Location row. */
  datatype Coordinates = Coordinates(lat: real, lon: real)

  /** Date-time text of a request body in the pattern "yyyy-MM-dd HH:mm:ss":
      either it denotes an instant (in seconds) or parsing it throws. */
  datatype DateText = Text(at: int) | Unparseable

  /** The Event entity.  Nullable columns are options; category, initiator
      and location are the referenced rows' ids. */
  datatype Event = Event(
    id: Option<int>,
    annotation: string,
    category: int,
    description: string,
    eventDate: int,
    initiator: int,
    location: Coordinates,
    paid: Option<bool>,
    participantLimit: Option<int>,
    requestModeration: Option<bool>,
    title: string,
    state: Option<EventState>,
    createdOn: Option<int>,
    publishedOn: Option<int>)

  /** NewEventDto; paid, participantLimit and requestModeration may be left out. */
  datatype NewEventDto = NewEventDto(
    annotation: string,
    category: int,
    description: string,
    eventDate: DateText,
    location: Coordinates,
    paid: Option<bool>,
    participantLimit: Option<int>,
    requestModeration: Option<bool>,
    title: string)

  /** The two actions an initiator may ask for. */
  datatype UserStateAction = SEND_TO_REVIEW | CANCEL_REVIEW

  /** UpdateEventUserRequest: every field optional. */
  datatype UpdateEventUserRequest = UpdateEventUserRequest(
    annotation: Option<string>,
    category: Option<int>,
    description: Option<string>,
    eventDate: Option<DateText>,
    location: Option<Coordinates>,
    paid: Option<bool>,
    participantLimit: Option<int>,
    requestModeration: Option<bool>,
    stateAction: Option<UserStateAction>,
    title: Option<string>)

  /** UpdateEventAdminRequest: the same fields, with a free-text action. */
  datatype UpdateEventAdminRequest = UpdateEventAdminRequest(
    annotation: Option<string>,
    category: Option<int>,
    description: Option<string>,
    eventDate: Option<DateText>,
    location: Option<Coordinates>,
    paid: Option<bool>,
    participantLimit: Option<int>,
    requestModeration: Option<bool>,
    stateAction: Option<string>,
    title: Option<string>)

  // ---------------------------------------------------------------------
  // Reading the participation settings, null included
  // ---------------------------------------------------------------------

  /** A limit is set and positive. */
  predicate HasPositiveLimit(e: Event)
  {
    e.participantLimit.Some? && e.participantLimit.value > 0
  }

  /** A limit of exactly 0, meaning unlimited. */
  predicate NoLimit(e: Event)
  {
    e.participantLimit == Some(0)
  }

  /** Moderation switched off explicitly (Boolean.FALSE.equals). */
  predicate NoModeration(e: Event)
  {
    e.requestModeration == Some(false)
  }

  /** Requests to this event are confirmed on arrival. */
  predicate AutoConfirm(e: Event)
  {
    NoModeration(e) || NoLimit(e)
  }

  /** The limit, with null read as 0. */
  function LimitOrZero(e: Event): int
  {
    e.participantLimit.GetOr(0)
  }

  // ---------------------------------------------------------------------
  // Invariants of saved events
  // ---------------------------------------------------------------------

  /** createEvent fills these columns and no edit clears them. */
  predicate Complete(e: Event)
  {
    e.paid.Some? && e.participantLimit.Some? && e.requestModeration.Some?
    && e.state.Some? && e.createdOn.Some?
  }

  /** publishedOn is set exactly on published events. */
  predicate PublicationConsistent(e: Event)
  {
    e.publishedOn.Some? <==> e.state == Some(PUBLISHED)
  }

  /** What every row of the event table satisfies. */
  predicate Saved(e: Event)
  {
    Complete(e) && PublicationConsistent(e)
  }

  /** countByCategory_Id. */
  function CountByCategory(rows: seq<Event>, categoryId: int): (n: nat)
    ensures n <= |rows|
    ensures n == 0 <==> forall i :: 0 <= i < |rows| ==> rows[i].category != categoryId
  {
    if rows == [] then 0
    else (if rows[0].category == categoryId then 1 else 0) + CountByCategory(rows[1..], categoryId)
  }

  /** The event table. */
  class EventRepository {
    var rows: seq<Event>

    ghost predicate Valid()
      reads this
    {
      forall i :: 0 <= i < |rows| ==> rows[i].id == Some(i + 1) && Saved(rows[i])
    }

    constructor ()
      ensures Valid() && rows == []
    {
      rows := [];
    }

    /** save of a new event: it receives the next id. */
    method Insert(e: Event) returns (saved: Event)
      requires Valid() && Saved(e)
      modifies this
      ensures Valid()
      ensures saved == e.(id := Some(|old(rows)| + 1))
      ensures rows == old(rows) + [saved]
    {
      saved := e.(id := Some(|rows| + 1));
      rows := rows + [saved];
    }

    /** save of an event read earlier from this table. */
    method Update(e: Event)
      requires Valid() && Saved(e)
      requires e.id.Some? && 1 <= e.id.value <= |rows|
      modifies this
      ensures Valid()
      ensures rows == old(rows)[e.id.value - 1 := e]
    {
      rows := rows[e.id.value - 1 := e];
    }
  }
}
