/**
 * EventServiceImpl: creating and editing events (by their initiator and by
 * an administrator), the two searches, and reading single events.  The
 * lifecycle it enforces is PENDING -> PUBLISHED (admin only, at least an
 * hour ahead of the event) and PENDING/CANCELED -> CANCELED/PENDING;
 * a published event is never unpublished.  View counts come from the stats
 * service, whose answer is a parameter here (None when the call fails).
 */
module EventService {
  import opened Common
  import opened Events
  import opened EventMapper
  import opened EventSearch
  import opened Requests
  import opened Users
  import opened Categories
  import opened PageUtils
  import opened Sorting
  import RequestService

  /** How far ahead of `now` an initiator must schedule an event. */
  const USER_LEAD: int := 2 * HOUR
  /** How far ahead of `now` an administrator must schedule, and publish, an event. */
  const ADMIN_LEAD: int := HOUR

  // ---------------------------------------------------------------------
  // Views and confirmed requests
  // ---------------------------------------------------------------------

  /** The uri whose hits count as views of event `id`. */
  function EventUri(id: int): string
  {
    "/events/" + IntToString(id)
  }

  /** byUri.getOrDefault("/events/" + id, 0). */
  function ViewsOf(byUri: map<string, int>, id: int): int
  {
    if EventUri(id) in byUri then byUri[EventUri(id)] else 0
  }

  /** The stats answer, with a failed call read as an empty map. */
  function Answer(byUri: Option<map<string, int>>): map<string, int>
  {
    byUri.GetOr(map[])
  }

  lemma {:induction false} NatToStringInjective(a: nat, b: nat)
    requires NatToString(a) == NatToString(b)
    ensures a == b
  {
    var s := NatToString(a);
    if a >= 10 && b >= 10 {
      assert s[|s| - 1] == DigitChar(a % 10) == DigitChar(b % 10);
      assert NatToString(a / 10) == s[..|s| - 1] == NatToString(b / 10);
      NatToStringInjective(a / 10, b / 10);
    } else if a >= 10 || b >= 10 {
      assert false;
    }
  }

  /** Long.toString starts with '-' exactly for negative numbers. */
  lemma SignShows(n: int)
    ensures IntToString(n) != [] && (IntToString(n)[0] == '-' <==> n < 0)
  {
  }

  /** Long.toString is injective. */
  lemma IntToStringInjective(a: int, b: int)
    requires IntToString(a) == IntToString(b)
    ensures a == b
  {
    SignShows(a);
    SignShows(b);
    if a < 0 && b < 0 {
      var s := IntToString(a);
      assert NatToString(-a) == s[1..] == NatToString(-b);
      NatToStringInjective(-a, -b);
    } else if a >= 0 && b >= 0 {
      NatToStringInjective(a, b);
    } else {
      assert false;
    }
  }

  /** Different events are counted under different uris. */
  lemma EventUriInjective(a: int, b: int)
    requires EventUri(a) == EventUri(b)
    ensures a == b
  {
    var pre := "/events/";
    var sa := IntToString(a);
    var sb := IntToString(b);
    assert sa == (pre + sa)[|pre|..];
    assert sb == (pre + sb)[|pre|..];
    IntToStringInjective(a, b);
  }

  /** fetchViewsByEventIds: every id mapped to the views of its uri. */
  method FetchViewsByEventIds(ids: seq<int>, byUri: Option<map<string, int>>) returns (views: map<int, int>)
    ensures forall id :: id in views <==> id in ids
    ensures forall id :: id in views ==> views[id] == ViewsOf(Answer(byUri), id)
  {
    views := map[];
    if ids == [] {
      return;
    }
    var answer := Answer(byUri);
    for i := 0 to |ids|
      invariant forall id :: id in views <==> id in ids[..i]
      invariant forall id :: id in views ==> views[id] == ViewsOf(answer, id)
    {
      views := views[ids[i] := ViewsOf(answer, ids[i])];
      assert ids[..i + 1] == ids[..i] + [ids[i]];
    }
    assert ids[..|ids|] == ids;
  }

  /** countConfirmed. */
  function ConfirmedCount(requests: seq<ParticipationRequest>, e: Event): nat
  {
    CountWhere(requests, e.id.GetOr(0), CONFIRMED)
  }

  /** hasAvailableSlots: no limit, or fewer confirmed requests than the limit. */
  predicate HasAvailableSlots(requests: seq<ParticipationRequest>, e: Event)
  {
    e.participantLimit.None? || e.participantLimit == Some(0) || ConfirmedCount(requests, e) < e.participantLimit.value
  }

  /** For a non-negative limit, the public "available" filter agrees with the
      limit check addRequest makes before admitting a participant. */
  lemma AvailableSlotsAgreeWithAdmission(requests: seq<ParticipationRequest>, e: Event)
    requires e.id.Some? && e.participantLimit.GetOr(0) >= 0
    ensures HasAvailableSlots(requests, e) <==>
      !(HasPositiveLimit(e) && CountWhere(requests, e.id.value, CONFIRMED) >= e.participantLimit.value)
  {
  }

  /** enrichShort for one event, and enrichFull. */
  function ShortView(requests: seq<ParticipationRequest>, byUri: map<string, int>, e: Event): EventShortDto
  {
    ToShortDto(e, ConfirmedCount(requests, e), ViewsOf(byUri, e.id.GetOr(0)))
  }

  /** enrichShort. */
  function ShortViews(requests: seq<ParticipationRequest>, byUri: map<string, int>, es: seq<Event>): (r: seq<EventShortDto>)
    ensures |r| == |es|
  {
    seq(|es|, k requires 0 <= k < |es| => ShortView(requests, byUri, es[k]))
  }

  function FullView(requests: seq<ParticipationRequest>, byUri: map<string, int>, e: Event): EventFullDto
  {
    ToFullDto(e, ConfirmedCount(requests, e), ViewsOf(byUri, e.id.GetOr(0)))
  }

  // ---------------------------------------------------------------------
  // createEvent
  // ---------------------------------------------------------------------

  /** The event createEvent saves, before the table gives it an id. */
  function NewEvent(users: set<int>, categories: set<int>, userId: int, dto: NewEventDto, now: int): (r: Result<Event>)
    ensures userId !in users ==> r == Err(NotFound)
    ensures userId in users && dto.category !in categories ==> r == Err(NotFound)
    ensures userId in users && dto.category in categories && dto.eventDate.Unparseable? ==> r == Err(DateTimeParse)
    ensures userId in users && dto.category in categories && dto.eventDate.Text? && dto.eventDate.at < now + USER_LEAD
            ==> r == Err(BadRequest)
    ensures r.Ok? <==> userId in users && dto.category in categories && dto.eventDate.Text?
                       && dto.eventDate.at >= now + USER_LEAD
    ensures r.Ok? ==>
      Saved(r.value) && r.value.id.None? && r.value.state == Some(Events.PENDING)
      && r.value.createdOn == Some(now) && r.value.eventDate >= now + USER_LEAD
      && r.value.initiator == userId && r.value.category == dto.category
      && r.value.paid == Some(dto.paid.GetOr(false))
      && r.value.participantLimit == Some(dto.participantLimit.GetOr(0))
      && r.value.requestModeration == Some(dto.requestModeration.GetOr(true))
  {
    if userId !in users then Err(NotFound)
    else if dto.category !in categories then Err(NotFound)
    else if dto.eventDate.Unparseable? then Err(DateTimeParse)
    else if dto.eventDate.at < now + USER_LEAD then Err(BadRequest)
    else
      var e := FromNew(dto, dto.category, userId, dto.location).value;
      Ok(e.(paid := Some(e.paid.GetOr(false)),
            participantLimit := Some(e.participantLimit.GetOr(0)),
            requestModeration := Some(e.requestModeration.GetOr(true)),
            createdOn := Some(now),
            state := Some(Events.PENDING)))
  }

  // ---------------------------------------------------------------------
  // updateUserEvent
  // ---------------------------------------------------------------------

  /** The state an initiator's action leaves. */
  function UserStateAfter(state: Option<EventState>, action: Option<UserStateAction>): Option<EventState>
  {
    match action
    case None => state
    case Some(SEND_TO_REVIEW) => Some(Events.PENDING)
    case Some(CANCEL_REVIEW) => Some(Events.CANCELED)
  }

  /** The event after updateUserEvent, or the exception. */
  function UserEdit(events: seq<Event>, categories: set<int>, userId: int, eventId: int,
                    dto: UpdateEventUserRequest, now: int): (r: Result<Event>)
    ensures r.Err? ==> r.error in {NotFound, Conflict, DateTimeParse, BadRequest}
    ensures r.Ok? ==> 1 <= eventId <= |events| && r.value.id == events[eventId - 1].id
                      && r.value.initiator == userId && r.value.state != Some(PUBLISHED)
  {
    match FindById(events, eventId)
    case None => Err(NotFound)
    case Some(e) =>
      if e.initiator != userId then Err(NotFound)
      else if e.state == Some(PUBLISHED) then Err(Conflict)
      else if dto.category.Some? && dto.category.value !in categories then Err(NotFound)
      else
        var placed := e.(category := dto.category.GetOr(e.category), location := dto.location.GetOr(e.location));
        match UpdateFromUser(dto, placed)
        case Err(kind) => Err(kind)
        case Ok(patched) =>
          if dto.eventDate.Some? && dto.eventDate.value.at < now + USER_LEAD then Err(BadRequest)
          else Ok(patched.(state := UserStateAfter(patched.state, dto.stateAction)))
  }

  /** When updateUserEvent refuses: an unknown event, or one of another user
      (both NotFound), a published event (Conflict), an unknown category
      (NotFound), an unparseable date (a parse error), or a date less than
      two hours ahead (BadRequest), checked in that order. */
  lemma UserEditCases(events: seq<Event>, categories: set<int>, userId: int, eventId: int,
                      dto: UpdateEventUserRequest, now: int)
    ensures !(1 <= eventId <= |events|) ==> UserEdit(events, categories, userId, eventId, dto, now) == Err(NotFound)
    ensures 1 <= eventId <= |events| && events[eventId - 1].initiator != userId
            ==> UserEdit(events, categories, userId, eventId, dto, now) == Err(NotFound)
    ensures 1 <= eventId <= |events| && events[eventId - 1].initiator == userId
            && events[eventId - 1].state == Some(PUBLISHED)
            ==> UserEdit(events, categories, userId, eventId, dto, now) == Err(Conflict)
    ensures 1 <= eventId <= |events| && events[eventId - 1].initiator == userId
            && events[eventId - 1].state != Some(PUBLISHED)
            && dto.category.Some? && dto.category.value !in categories
            ==> UserEdit(events, categories, userId, eventId, dto, now) == Err(NotFound)
    ensures 1 <= eventId <= |events| && events[eventId - 1].initiator == userId
            && events[eventId - 1].state != Some(PUBLISHED)
            && (dto.category.Some? ==> dto.category.value in categories)
            && dto.eventDate == Some(Unparseable)
            ==> UserEdit(events, categories, userId, eventId, dto, now) == Err(DateTimeParse)
    ensures 1 <= eventId <= |events| && events[eventId - 1].initiator == userId
            && events[eventId - 1].state != Some(PUBLISHED)
            && (dto.category.Some? ==> dto.category.value in categories)
            && dto.eventDate.Some? && dto.eventDate.value.Text? && dto.eventDate.value.at < now + USER_LEAD
            ==> UserEdit(events, categories, userId, eventId, dto, now) == Err(BadRequest)
    ensures UserEdit(events, categories, userId, eventId, dto, now).Ok? <==>
            1 <= eventId <= |events| && events[eventId - 1].initiator == userId
            && events[eventId - 1].state != Some(PUBLISHED)
            && (dto.category.Some? ==> dto.category.value in categories)
            && (dto.eventDate.Some? ==> dto.eventDate.value.Text? && dto.eventDate.value.at >= now + USER_LEAD)
  {
  }

  /** What an accepted user edit changes: the fields the request gives, the
      category and location, and the state as the action says; never the
      id, initiator, creation or publication, and never to PUBLISHED. */
  lemma UserEditResult(events: seq<Event>, categories: set<int>, userId: int, eventId: int,
                       dto: UpdateEventUserRequest, now: int)
    requires UserEdit(events, categories, userId, eventId, dto, now).Ok?
    ensures var e := events[eventId - 1];
      var r := UserEdit(events, categories, userId, eventId, dto, now).value;
      && PatchedFrom(e.(category := r.category, location := r.location, state := r.state), r,
                     dto.annotation, dto.description, dto.title, dto.paid, dto.participantLimit,
                     dto.requestModeration, dto.eventDate)
      && r.category == dto.category.GetOr(e.category) && r.location == dto.location.GetOr(e.location)
      && r.state == UserStateAfter(e.state, dto.stateAction)
      && r.state != Some(PUBLISHED)
  {
  }

  /** An accepted user edit keeps an event a valid row of the table. */
  lemma UserEditKeepsSaved(events: seq<Event>, categories: set<int>, userId: int, eventId: int,
                           dto: UpdateEventUserRequest, now: int)
    requires forall i :: 0 <= i < |events| ==> Saved(events[i])
    requires UserEdit(events, categories, userId, eventId, dto, now).Ok?
    ensures Saved(UserEdit(events, categories, userId, eventId, dto, now).value)
  {
    UserEditResult(events, categories, userId, eventId, dto, now);
    assert Saved(events[eventId - 1]);
  }

  // ---------------------------------------------------------------------
  // updateAdminEvent
  // ---------------------------------------------------------------------

  /** The state action of updateAdminEvent, matched ignoring case. */
  function AdminDecision(e: Event, action: Option<string>, now: int): (r: Result<Event>)
    ensures r.Err? ==> r.error == Conflict
    ensures r.Ok? && r.value.state != e.state ==> r.value.state in {Some(PUBLISHED), Some(Events.CANCELED)}
    ensures r.Ok? && r.value.state == Some(PUBLISHED) && e.state != Some(PUBLISHED) ==> r.value.publishedOn == Some(now)
  {
    if EqualsIgnoreCase("PUBLISH_EVENT", action) then
      if e.state != Some(Events.PENDING) then Err(Conflict)
      else if e.eventDate < now + ADMIN_LEAD then Err(Conflict)
      else Ok(e.(state := Some(PUBLISHED), publishedOn := Some(now)))
    else if EqualsIgnoreCase("REJECT_EVENT", action) then
      if e.state == Some(PUBLISHED) then Err(Conflict)
      else Ok(e.(state := Some(Events.CANCELED)))
    else Ok(e)
  }

  /** The event after updateAdminEvent, or the exception. */
  function AdminEdit(events: seq<Event>, categories: set<int>, eventId: int,
                     dto: UpdateEventAdminRequest, now: int): (r: Result<Event>)
    ensures r.Err? ==> r.error in {NotFound, DateTimeParse, BadRequest, Conflict}
    ensures r.Ok? ==> 1 <= eventId <= |events| && r.value.id == events[eventId - 1].id
                      && r.value.initiator == events[eventId - 1].initiator
  {
    match FindById(events, eventId)
    case None => Err(NotFound)
    case Some(e) =>
      if dto.category.Some? && dto.category.value !in categories then Err(NotFound)
      else
        var placed := e.(category := dto.category.GetOr(e.category), location := dto.location.GetOr(e.location));
        match UpdateFromAdmin(dto, placed)
        case Err(kind) => Err(kind)
        case Ok(patched) =>
          if dto.eventDate.Some? && dto.eventDate.value.at < now + ADMIN_LEAD then Err(BadRequest)
          else AdminDecision(patched, dto.stateAction, now)
  }

  /** The transitions an administrator's action can make: PUBLISH_EVENT
      takes a PENDING event at least an hour ahead to PUBLISHED, stamped with
      `now`, and is a conflict otherwise; REJECT_EVENT cancels any
      unpublished event and is a conflict on a published one; any other
      action changes nothing. */
  lemma AdminDecisionTransitions(e: Event, action: Option<string>, now: int)
    ensures EqualsIgnoreCase("PUBLISH_EVENT", action) && (e.state != Some(Events.PENDING) || e.eventDate < now + ADMIN_LEAD)
            ==> AdminDecision(e, action, now) == Err(Conflict)
    ensures EqualsIgnoreCase("PUBLISH_EVENT", action) && e.state == Some(Events.PENDING) && e.eventDate >= now + ADMIN_LEAD
            ==> AdminDecision(e, action, now) == Ok(e.(state := Some(PUBLISHED), publishedOn := Some(now)))
    ensures EqualsIgnoreCase("REJECT_EVENT", action) && e.state == Some(PUBLISHED)
            ==> AdminDecision(e, action, now) == Err(Conflict)
    ensures EqualsIgnoreCase("REJECT_EVENT", action) && e.state != Some(PUBLISHED)
            ==> AdminDecision(e, action, now) == Ok(e.(state := Some(Events.CANCELED)))
    ensures !EqualsIgnoreCase("PUBLISH_EVENT", action) && !EqualsIgnoreCase("REJECT_EVENT", action)
            ==> AdminDecision(e, action, now) == Ok(e)
    ensures AdminDecision(e, action, now).Err? ==> AdminDecision(e, action, now).error == Conflict
  {
    if EqualsIgnoreCase("REJECT_EVENT", action) {
      assert Lower("PUBLISH_EVENT") != Lower("REJECT_EVENT") by {
        assert Lower("PUBLISH_EVENT")[0] == 'p';
        assert Lower("REJECT_EVENT")[0] == 'r';
      }
    }
  }

  /** The action name is matched ignoring case. */
  lemma PublishIgnoresCase(e: Event, now: int)
    requires e.state == Some(Events.PENDING) && e.eventDate >= now + ADMIN_LEAD
    ensures AdminDecision(e, Some("publish_event"), now) == Ok(e.(state := Some(PUBLISHED), publishedOn := Some(now)))
  {
    assert Lower("publish_event") == Lower("PUBLISH_EVENT");
  }

  /** When updateAdminEvent refuses: an unknown event or category
      (NotFound), an unparseable date (a parse error), a date less than an
      hour ahead (BadRequest), and then the conflicts of the state action,
      judged on the event as patched. */
  lemma AdminEditCases(events: seq<Event>, categories: set<int>, eventId: int,
                       dto: UpdateEventAdminRequest, now: int)
    ensures !(1 <= eventId <= |events|) ==> AdminEdit(events, categories, eventId, dto, now) == Err(NotFound)
    ensures 1 <= eventId <= |events| && dto.category.Some? && dto.category.value !in categories
            ==> AdminEdit(events, categories, eventId, dto, now) == Err(NotFound)
    ensures 1 <= eventId <= |events| && (dto.category.Some? ==> dto.category.value in categories)
            && dto.eventDate == Some(Unparseable)
            ==> AdminEdit(events, categories, eventId, dto, now) == Err(DateTimeParse)
    ensures 1 <= eventId <= |events| && (dto.category.Some? ==> dto.category.value in categories)
            && dto.eventDate.Some? && dto.eventDate.value.Text? && dto.eventDate.value.at < now + ADMIN_LEAD
            ==> AdminEdit(events, categories, eventId, dto, now) == Err(BadRequest)
    ensures 1 <= eventId <= |events| && (dto.category.Some? ==> dto.category.value in categories)
            && (dto.eventDate.Some? ==> dto.eventDate.value.Text? && dto.eventDate.value.at >= now + ADMIN_LEAD)
            ==> var e := events[eventId - 1];
                var date := if dto.eventDate.Some? then dto.eventDate.value.at else e.eventDate;
                var r := AdminEdit(events, categories, eventId, dto, now);
                (r.Err? <==>
                   (EqualsIgnoreCase("PUBLISH_EVENT", dto.stateAction)
                    && (e.state != Some(Events.PENDING) || date < now + ADMIN_LEAD))
                   || (EqualsIgnoreCase("REJECT_EVENT", dto.stateAction) && e.state == Some(PUBLISHED)))
                && (r.Err? ==> r.error == Conflict)
  {
    if 1 <= eventId <= |events| && (dto.category.Some? ==> dto.category.value in categories)
       && (dto.eventDate.Some? ==> dto.eventDate.value.Text? && dto.eventDate.value.at >= now + ADMIN_LEAD)
    {
      var e := events[eventId - 1];
      var placed := e.(category := dto.category.GetOr(e.category), location := dto.location.GetOr(e.location));
      var patched := UpdateFromAdmin(dto, placed).value;
      AdminDecisionTransitions(patched, dto.stateAction, now);
    }
  }

  /** An accepted admin edit keeps an event a valid row, and a published
      event stays published with its publication time. */
  lemma AdminEditKeepsSaved(events: seq<Event>, categories: set<int>, eventId: int,
                            dto: UpdateEventAdminRequest, now: int)
    requires forall i :: 0 <= i < |events| ==> Saved(events[i])
    requires AdminEdit(events, categories, eventId, dto, now).Ok?
    ensures var e := events[eventId - 1];
      var r := AdminEdit(events, categories, eventId, dto, now).value;
      Saved(r) && r.id == e.id && r.initiator == e.initiator && r.createdOn == e.createdOn
      && (e.state == Some(PUBLISHED) ==> r.state == e.state && r.publishedOn == e.publishedOn)
      && (r.state == Some(PUBLISHED) && e.state != Some(PUBLISHED) ==> r.publishedOn == Some(now) && r.eventDate >= now + ADMIN_LEAD)
  {
    var e := events[eventId - 1];
    assert Saved(e);
    var placed := e.(category := dto.category.GetOr(e.category), location := dto.location.GetOr(e.location));
    var patched := UpdateFromAdmin(dto, placed).value;
    AdminDecisionTransitions(patched, dto.stateAction, now);
  }

  /** An edit may lower a participant limit below the requests already
      confirmed: neither edit compares the new limit with them.  Event 1
      with limit 2 and two confirmed requests is within its limit; an
      administrator's edit to limit 1 is accepted and leaves it over. */
  lemma AdminEditMayBreakCapacity()
    ensures RequestService.CapacityRespected(LimitExampleEvents(), LimitExampleRows())
    ensures AdminEdit(LimitExampleEvents(), {1}, 1, LowerLimitTo(1), 0).Ok?
    ensures !RequestService.CapacityRespected(
              [AdminEdit(LimitExampleEvents(), {1}, 1, LowerLimitTo(1), 0).value], LimitExampleRows())
  {
    var events := LimitExampleEvents();
    var rows := LimitExampleRows();
    assert CountWhere(rows, 1, CONFIRMED) == 2;
    assert RequestService.WithinLimitAt(events, rows, 0);
    var edited := AdminEdit(events, {1}, 1, LowerLimitTo(1), 0).value;
    assert edited.participantLimit == Some(1);
    assert !RequestService.WithinLimitAt([edited], rows, 0);
  }

  /** One published event of user 10 with a limit of two. */
  function LimitExampleEvents(): seq<Event>
  {
    [Event(Some(1), "annotation", 1, "description", 0, 10, Coordinates(0.0, 0.0),
           Some(false), Some(2), Some(true), "title", Some(PUBLISHED), Some(0), Some(0))]
  }

  /** Two confirmed requests of event 1. */
  function LimitExampleRows(): seq<ParticipationRequest>
  {
    [ParticipationRequest(1, 0, 1, 30, CONFIRMED), ParticipationRequest(2, 0, 1, 31, CONFIRMED)]
  }

  /** An admin edit that only sets the participant limit. */
  function LowerLimitTo(limit: int): UpdateEventAdminRequest
  {
    UpdateEventAdminRequest(None, None, None, None, None, None, Some(limit), None, None, None)
  }

  // ---------------------------------------------------------------------
  // The searches
  // ---------------------------------------------------------------------

  /** A date-time query parameter: None when null or blank. */
  type DateParam = Option<DateText>

  /** Parsing the range parameters; an unparseable one is a BadRequest. */
  function ParseRange(rangeStart: DateParam, rangeEnd: DateParam): (r: Result<(Option<int>, Option<int>)>)
    ensures r.Err? <==> rangeStart == Some(Unparseable) || rangeEnd == Some(Unparseable)
    ensures r.Err? ==> r.error == BadRequest
    ensures r.Ok? ==> (r.value.0.Some? <==> rangeStart.Some?) && (r.value.1.Some? <==> rangeEnd.Some?)
    ensures r.Ok? && rangeStart.Some? ==> r.value.0.value == rangeStart.value.at
    ensures r.Ok? && rangeEnd.Some? ==> r.value.1.value == rangeEnd.value.at
  {
    if rangeStart == Some(Unparseable) || rangeEnd == Some(Unparseable) then Err(BadRequest)
    else Ok((if rangeStart.Some? then Some(rangeStart.value.at) else None,
             if rangeEnd.Some? then Some(rangeEnd.value.at) else None))
  }

  function EventId(e: Event): int
  {
    e.id.GetOr(0)
  }

  /** Ordering by this key, largest first, is ORDER BY eventDate ASC. */
  function EarlierFirst(e: Event): int
  {
    -e.eventDate
  }

  function ViewsKey(d: EventShortDto): int
  {
    d.views
  }

  /** The parameters of searchAdmin. */
  datatype AdminQuery = AdminQuery(users: Option<seq<int>>, states: Option<seq<string>>,
                                   categories: Option<seq<int>>, rangeStart: DateParam, rangeEnd: DateParam,
                                   from: int, size: int)

  /** The state names of searchAdmin, upper-cased and converted; a name that
      is no state is an IllegalArgumentException.  A null or empty list
      filters nothing. */
  function StatesOf(names: Option<seq<string>>): (r: Result<Option<seq<EventState>>>)
    ensures names.None? || names.value == [] ==> r == Ok(None)
    ensures r.Ok? && r.value.Some? ==>
      names.Some? && |r.value.value| == |names.value|
      && forall k :: 0 <= k < |names.value| ==> StateName(r.value.value[k]) == Upper(names.value[k])
    ensures r.Err? ==> r.error == IllegalArgument
    ensures r.Err? <==> names.Some? && exists k :: 0 <= k < |names.value| && StateValueOf(Upper(names.value[k])).None?
    decreases if names.Some? then |names.value| else 0
  {
    if names.None? || names.value == [] then Ok(None)
    else
      var rest := StatesOf(Some(names.value[1..]));
      var first := StateValueOf(Upper(names.value[0]));
      if first.None? then Err(IllegalArgument)
      else if rest.Err? then
        var k :| 0 <= k < |names.value[1..]| && StateValueOf(Upper(names.value[1..][k])).None?;
        assert StateValueOf(Upper(names.value[k + 1])).None?;
        Err(IllegalArgument)
      else
        var tail := if rest.value.Some? then rest.value.value else [];
        assert forall k :: 1 <= k < |names.value| ==> StateValueOf(Upper(names.value[k])).Some? by {
          forall k | 1 <= k < |names.value|
            ensures StateValueOf(Upper(names.value[k])).Some?
          {
            assert names.value[k] == names.value[1..][k - 1];
          }
        }
        Ok(Some([first.value] + tail))
  }

  /** The events of the page searchAdmin reads: matching ones, newest id first. */
  function AdminPage(events: seq<Event>, f: AdminFilter, page: PageRequest): (r: seq<Event>)
    requires page.page >= 0 && page.size > 0
    ensures |r| <= page.size
    ensures forall e :: e in r ==> e in events && MatchesAdmin(e, f)
    ensures SortedDesc(r, EventId)
  {
    var found := SearchAdmin(events, f);
    SortedPage(found, EventId, page);
    Content(SortDesc(found, EventId), page)
  }

  /** enrichFull over a list. */
  function FullViews(requests: seq<ParticipationRequest>, byUri: map<string, int>, es: seq<Event>): (r: seq<EventFullDto>)
    ensures |r| == |es|
  {
    seq(|es|, k requires 0 <= k < |es| => FullView(requests, byUri, es[k]))
  }

  /** searchAdmin: the matching events, newest id first, the page asked for,
      each with its confirmed requests and views. */
  function AdminSearch(events: seq<Event>, requests: seq<ParticipationRequest>, q: AdminQuery,
                       byUri: map<string, int>): (r: Result<seq<EventFullDto>>)
    ensures r.Err? ==> r.error == IllegalArgument || r.error == BadRequest
    ensures q.size <= 0 ==> r.Err?
  {
    match StatesOf(q.states)
    case Err(kind) => Err(kind)
    case Ok(states) =>
      match ParseRange(q.rangeStart, q.rangeEnd)
      case Err(kind) => Err(kind)
      case Ok(range) =>
        match By(q.from, q.size, OrderBy("id", false))
        case Err(kind) => Err(kind)
        case Ok(page) =>
          Ok(FullViews(requests, byUri, AdminPage(events, AdminFilter(q.users, states, q.categories, range.0, range.1), page)))
  }

  /** What searchAdmin returns: at most a page of the events that pass its
      filter, in descending id order, each with its own counts. */
  lemma AdminSearchResult(events: seq<Event>, requests: seq<ParticipationRequest>, q: AdminQuery,
                          byUri: map<string, int>)
    requires AdminSearch(events, requests, q, byUri).Ok?
    ensures |AdminSearch(events, requests, q, byUri).value| <= q.size
    ensures StatesOf(q.states).Ok? && ParseRange(q.rangeStart, q.rangeEnd).Ok?
    ensures var states := StatesOf(q.states).value;
      var range := ParseRange(q.rangeStart, q.rangeEnd).value;
      forall d :: d in AdminSearch(events, requests, q, byUri).value ==>
        exists e :: (e in events && MatchesAdmin(e, AdminFilter(q.users, states, q.categories, range.0, range.1))
                     && d == FullView(requests, byUri, e))
    ensures var r := AdminSearch(events, requests, q, byUri).value;
      forall i, j :: 0 <= i < j < |r| ==> r[i].id.GetOr(0) >= r[j].id.GetOr(0)
  {
    var states := StatesOf(q.states).value;
    var range := ParseRange(q.rangeStart, q.rangeEnd).value;
    var page := By(q.from, q.size, OrderBy("id", false)).value;
    var filter := AdminFilter(q.users, states, q.categories, range.0, range.1);
    var content := AdminPage(events, filter, page);
    var r := AdminSearch(events, requests, q, byUri).value;
    assert r == FullViews(requests, byUri, content);
    FullViewsOfAdminPage(events, requests, byUri, filter, content);
  }

  /** Enriching a filtered page yields the full view of events that pass the
      filter, and keeps the page's descending id order. */
  lemma FullViewsOfAdminPage(events: seq<Event>, requests: seq<ParticipationRequest>, byUri: map<string, int>,
                             filter: AdminFilter, content: seq<Event>)
    requires forall e :: e in content ==> e in events && MatchesAdmin(e, filter)
    requires SortedDesc(content, EventId)
    ensures forall d :: d in FullViews(requests, byUri, content) ==>
      exists e :: (e in events && MatchesAdmin(e, filter) && d == FullView(requests, byUri, e))
    ensures var r := FullViews(requests, byUri, content);
      forall i, j :: 0 <= i < j < |r| ==> r[i].id.GetOr(0) >= r[j].id.GetOr(0)
  {
    var r := FullViews(requests, byUri, content);
    forall d | d in r
      ensures exists e :: e in events && MatchesAdmin(e, filter) && d == FullView(requests, byUri, e)
    {
      var k :| 0 <= k < |r| && r[k] == d;
      assert content[k] in content;
    }
    forall i, j | 0 <= i < j < |r|
      ensures r[i].id.GetOr(0) >= r[j].id.GetOr(0)
    {
      assert EventId(content[i]) >= EventId(content[j]);
    }
  }

  /** The parameters of searchPublic. */
  datatype PublicQuery = PublicQuery(text: Option<string>, categories: Option<seq<int>>, paid: Option<bool>,
                                     rangeStart: DateParam, rangeEnd: DateParam, onlyAvailable: Option<bool>,
                                     sort: Option<string>, from: int, size: int)

  /** The public filter, or BadRequest for a bad or inverted range; with no
      bounds at all only events from `now` on are shown. */
  function PublicFilterOf(q: PublicQuery, now: int): (r: Result<PublicFilter>)
    ensures r.Err? ==> r.error == BadRequest
    ensures r.Err? <==> q.rangeStart == Some(Unparseable) || q.rangeEnd == Some(Unparseable)
                        || (q.rangeStart.Some? && q.rangeEnd.Some? && q.rangeEnd.value.at < q.rangeStart.value.at)
    ensures r.Ok? ==> r.value.search == SearchPattern(q.text) && r.value.paid == q.paid
    ensures r.Ok? ==> (r.value.categories.None? <==> q.categories.None? || q.categories.value == [])
                      && (r.value.categories.Some? ==> r.value.categories == q.categories)
    ensures r.Ok? && q.rangeStart.Some? ==> r.value.rangeStart == Some(q.rangeStart.value.at)
    ensures r.Ok? && q.rangeEnd.Some? ==> r.value.rangeEnd == Some(q.rangeEnd.value.at)
    ensures r.Ok? && q.rangeStart.None? && q.rangeEnd.Some? ==> r.value.rangeStart.None?
    ensures r.Ok? && q.rangeStart.None? && q.rangeEnd.None? ==> r.value.rangeStart == Some(now) && r.value.rangeEnd.None?
    ensures r.Ok? && r.value.rangeStart.Some? && r.value.rangeEnd.Some? ==> r.value.rangeStart.value <= r.value.rangeEnd.value
  {
    match ParseRange(q.rangeStart, q.rangeEnd)
    case Err(kind) => Err(kind)
    case Ok(range) =>
      if range.0.Some? && range.1.Some? && range.1.value < range.0.value then Err(BadRequest)
      else
        var start := if range.0.None? && range.1.None? then Some(now) else range.0;
        Ok(PublicFilter(SearchPattern(q.text),
                        if q.categories.None? || q.categories.value == [] then None else q.categories,
                        q.paid, start, range.1))
  }

  predicate ByViews(sort: Option<string>)
  {
    EqualsIgnoreCase("VIEWS", sort)
  }

  /** The events of the page searchPublic reads, before the availability
      filter: by event date, or in table order when sorting by views. */
  function PublicPage(events: seq<Event>, f: PublicFilter, sort: Option<string>, page: PageRequest): (r: seq<Event>)
    requires page.page >= 0 && page.size > 0
    ensures |r| <= page.size
    ensures forall e :: e in r ==> e in events && MatchesPublic(e, f)
  {
    var found := SearchPublic(events, f);
    var ordered := if ByViews(sort) then found else SortDesc(found, EarlierFirst);
    var content := Content(ordered, page);
    assert forall e :: e in content ==> e in multiset(ordered);
    content
  }

  /** The events of a page that have a free place. */
  function Available(requests: seq<ParticipationRequest>, es: seq<Event>): (r: seq<Event>)
    ensures forall e :: e in r <==> e in es && HasAvailableSlots(requests, e)
    ensures |r| <= |es|
  {
    if es == [] then []
    else
      var rest := Available(requests, es[1..]);
      assert forall e :: e in es <==> e == es[0] || e in es[1..];
      if HasAvailableSlots(requests, es[0]) then [es[0]] + rest else rest
  }

  /** searchPublic: the published events that pass the filter, the page asked
      for, optionally only those with a free place, as short views; sorted by
      views, most viewed first, when asked to. */
  function PublicSearch(events: seq<Event>, requests: seq<ParticipationRequest>, q: PublicQuery, now: int,
                        byUri: map<string, int>): (r: Result<seq<EventShortDto>>)
    ensures r.Err? ==> r.error == IllegalArgument || r.error == BadRequest
    ensures q.size <= 0 ==> r.Err?
    ensures r.Ok? ==> |r.value| <= q.size
  {
    match PublicFilterOf(q, now)
    case Err(kind) => Err(kind)
    case Ok(f) =>
      match By(q.from, q.size, if ByViews(q.sort) then Unsorted else OrderBy("eventDate", true))
      case Err(kind) => Err(kind)
      case Ok(page) =>
        var shown := PublicPage(events, f, q.sort, page);
        var kept := if q.onlyAvailable == Some(true) then Available(requests, shown) else shown;
        var views := ShortViews(requests, byUri, kept);
        Ok(if ByViews(q.sort) then SortDesc(views, ViewsKey) else views)
  }

  /** Every short view built from a kept page describes a published event
      that passes the filter, and has a free place when that was asked for. */
  lemma ShortViewsOfPublicPage(events: seq<Event>, requests: seq<ParticipationRequest>, byUri: map<string, int>,
                               f: PublicFilter, onlyAvailable: bool, kept: seq<Event>)
    requires forall e :: e in kept ==>
      e in events && MatchesPublic(e, f) && (onlyAvailable ==> HasAvailableSlots(requests, e))
    ensures forall d :: d in ShortViews(requests, byUri, kept) ==>
      exists e :: (e in events && MatchesPublic(e, f)
                   && (onlyAvailable ==> HasAvailableSlots(requests, e))
                   && d == ShortView(requests, byUri, e))
  {
    var views := ShortViews(requests, byUri, kept);
    forall d | d in views
      ensures exists e :: (e in events && MatchesPublic(e, f)
                           && (onlyAvailable ==> HasAvailableSlots(requests, e))
                           && d == ShortView(requests, byUri, e))
    {
      var k :| 0 <= k < |views| && views[k] == d;
      assert kept[k] in kept;
    }
  }

  /** What searchPublic returns: only published events that pass the filter,
      no more than a page, only ones with a free place when asked, and most
      viewed first when sorting by views. */
  lemma PublicSearchResult(events: seq<Event>, requests: seq<ParticipationRequest>, q: PublicQuery, now: int,
                           byUri: map<string, int>)
    requires PublicSearch(events, requests, q, now, byUri).Ok?
    ensures |PublicSearch(events, requests, q, now, byUri).value| <= q.size
    ensures var f := PublicFilterOf(q, now).value;
      forall d :: d in PublicSearch(events, requests, q, now, byUri).value ==>
        exists e :: (e in events && MatchesPublic(e, f)
                     && (q.onlyAvailable == Some(true) ==> HasAvailableSlots(requests, e))
                     && d == ShortView(requests, byUri, e))
    ensures ByViews(q.sort) ==> SortedDesc(PublicSearch(events, requests, q, now, byUri).value, ViewsKey)
  {
    var f := PublicFilterOf(q, now).value;
    var page := By(q.from, q.size, if ByViews(q.sort) then Unsorted else OrderBy("eventDate", true)).value;
    var shown := PublicPage(events, f, q.sort, page);
    var onlyAvailable := q.onlyAvailable == Some(true);
    var kept := if onlyAvailable then Available(requests, shown) else shown;
    var views := ShortViews(requests, byUri, kept);
    var r := PublicSearch(events, requests, q, now, byUri).value;
    assert r == if ByViews(q.sort) then SortDesc(views, ViewsKey) else views;
    ShortViewsOfPublicPage(events, requests, byUri, f, onlyAvailable, kept);
    if ByViews(q.sort) {
      SortDescSorted(views, ViewsKey);
      forall d | d in r ensures d in views {
        assert d in multiset(r);
      }
    }
  }

  /** A range whose end lies before its start is refused. */
  lemma InvertedRangeRefused(q: PublicQuery, now: int)
    requires q.rangeStart.Some? && q.rangeStart.value.Text? && q.rangeEnd.Some? && q.rangeEnd.value.Text?
    requires q.rangeEnd.value.at < q.rangeStart.value.at
    ensures PublicFilterOf(q, now) == Err(BadRequest)
  {
  }

  // ---------------------------------------------------------------------
  // The service
  // ---------------------------------------------------------------------

  /** findAllByInitiator, in table order. */
  function ByInitiator(events: seq<Event>, userId: int): (r: seq<Event>)
    ensures forall e :: e in r <==> e in events && e.initiator == userId
    ensures |r| <= |events|
  {
    if events == [] then []
    else
      var rest := ByInitiator(events[1..], userId);
      assert forall e :: e in events <==> e == events[0] || e in events[1..];
      if events[0].initiator == userId then [events[0]] + rest else rest
  }

  class EventServiceImpl {
    const eventRepository: EventRepository
    const userRepository: UserRepository
    const categoryRepository: CategoryRepository
    const requestRepository: ParticipationRequestRepository

    constructor (events: EventRepository, users: UserRepository, categories: CategoryRepository,
                 requests: ParticipationRequestRepository)
      ensures eventRepository == events && userRepository == users
      ensures categoryRepository == categories && requestRepository == requests
    {
      eventRepository := events;
      userRepository := users;
      categoryRepository := categories;
      requestRepository := requests;
    }

    /** The views the stats service reports for one event. */
    method ViewsOfEvent(id: int, byUri: Option<map<string, int>>) returns (v: int)
      ensures v == ViewsOf(Answer(byUri), id)
    {
      var views := FetchViewsByEventIds([id], byUri);
      v := views[id];
    }

    /** enrichShort: the short views of `es`, their views fetched in one call. */
    method EnrichShort(es: seq<Event>, byUri: Option<map<string, int>>) returns (dtos: seq<EventShortDto>)
      ensures dtos == ShortViews(requestRepository.rows, Answer(byUri), es)
    {
      var ids := seq(|es|, k requires 0 <= k < |es| => es[k].id.GetOr(0));
      var views := FetchViewsByEventIds(ids, byUri);
      var requests := requestRepository.rows;
      assert |ids| == |es|;
      forall k | 0 <= k < |es|
        ensures ids[k] in views
      {
        var id := ids[k];
        assert id in ids;
        assert id in views;
      }
      dtos := seq(|es|, k requires 0 <= k < |es| =>
                    ToShortDto(es[k], ConfirmedCount(requests, es[k]), if ids[k] in views then views[ids[k]] else 0));
      assert forall k :: 0 <= k < |es| ==> dtos[k] == ShortView(requests, Answer(byUri), es[k]);
    }

    /** createEvent. */
    method CreateEvent(userId: int, dto: NewEventDto, now: int) returns (result: Result<EventFullDto>)
      requires eventRepository.Valid()
      modifies eventRepository
      ensures eventRepository.Valid()
      ensures var spec := NewEvent(userRepository.ids, categoryRepository.rows.Keys, userId, dto, now);
        (spec.Err? ==> result == Err(spec.error) && unchanged(eventRepository))
        && (spec.Ok? ==>
              var saved := spec.value.(id := Some(|old(eventRepository.rows)| + 1));
              eventRepository.rows == old(eventRepository.rows) + [saved]
              && result == Ok(ToFullDto(saved, 0, 0)))
    {
      var spec := NewEvent(userRepository.ids, categoryRepository.rows.Keys, userId, dto, now);
      if spec.Err? {
        return Err(spec.error);
      }
      var saved := eventRepository.Insert(spec.value);
      result := Ok(ToFullDto(saved, 0, 0));
    }

    /** getUserEvents. */
    method GetUserEvents(userId: int, from: int, size: int, byUri: Option<map<string, int>>)
      returns (result: Result<seq<EventShortDto>>)
      ensures userId !in userRepository.ids ==> result == Err(NotFound)
      ensures userId in userRepository.ids ==>
        match By(from, size, Unsorted)
        case Err(kind) => result == Err(kind)
        case Ok(page) =>
          result == Ok(ShortViews(requestRepository.rows, Answer(byUri),
                                  Content(ByInitiator(eventRepository.rows, userId), page)))
    {
      if userId !in userRepository.ids {
        return Err(NotFound);
      }
      var page := By(from, size, Unsorted);
      if page.Err? {
        return Err(page.error);
      }
      var dtos := EnrichShort(Content(ByInitiator(eventRepository.rows, userId), page.value), byUri);
      result := Ok(dtos);
    }

    /** getUserEvent. */
    method GetUserEvent(userId: int, eventId: int, byUri: Option<map<string, int>>) returns (result: Result<EventFullDto>)
      ensures result.Err? <==> !(1 <= eventId <= |eventRepository.rows|) || eventRepository.rows[eventId - 1].initiator != userId
      ensures result.Err? ==> result.error == NotFound
      ensures result.Ok? ==> result.value == FullView(requestRepository.rows, Answer(byUri), eventRepository.rows[eventId - 1])
    {
      var found := FindById(eventRepository.rows, eventId);
      if found.None? || found.value.initiator != userId {
        return Err(NotFound);
      }
      var e := found.value;
      var v := ViewsOfEvent(e.id.GetOr(0), byUri);
      result := Ok(ToFullDto(e, ConfirmedCount(requestRepository.rows, e), v));
    }

    /** updateUserEvent. */
    method UpdateUserEvent(userId: int, eventId: int, dto: UpdateEventUserRequest, now: int,
                           byUri: Option<map<string, int>>) returns (result: Result<EventFullDto>)
      requires eventRepository.Valid()
      modifies eventRepository
      ensures eventRepository.Valid()
      ensures var spec := UserEdit(old(eventRepository.rows), categoryRepository.rows.Keys, userId, eventId, dto, now);
        (spec.Err? ==> result == Err(spec.error) && unchanged(eventRepository))
        && (spec.Ok? ==>
              eventRepository.rows == old(eventRepository.rows)[eventId - 1 := spec.value]
              && result == Ok(FullView(requestRepository.rows, Answer(byUri), spec.value)))
    {
      var spec := UserEdit(eventRepository.rows, categoryRepository.rows.Keys, userId, eventId, dto, now);
      if spec.Err? {
        return Err(spec.error);
      }
      UserEditCases(eventRepository.rows, categoryRepository.rows.Keys, userId, eventId, dto, now);
      UserEditKeepsSaved(eventRepository.rows, categoryRepository.rows.Keys, userId, eventId, dto, now);
      eventRepository.Update(spec.value);
      var v := ViewsOfEvent(spec.value.id.GetOr(0), byUri);
      result := Ok(ToFullDto(spec.value, ConfirmedCount(requestRepository.rows, spec.value), v));
    }

    /** updateAdminEvent. */
    method UpdateAdminEvent(eventId: int, dto: UpdateEventAdminRequest, now: int,
                            byUri: Option<map<string, int>>) returns (result: Result<EventFullDto>)
      requires eventRepository.Valid()
      modifies eventRepository
      ensures eventRepository.Valid()
      ensures var spec := AdminEdit(old(eventRepository.rows), categoryRepository.rows.Keys, eventId, dto, now);
        (spec.Err? ==> result == Err(spec.error) && unchanged(eventRepository))
        && (spec.Ok? ==>
              eventRepository.rows == old(eventRepository.rows)[eventId - 1 := spec.value]
              && result == Ok(FullView(requestRepository.rows, Answer(byUri), spec.value)))
    {
      var spec := AdminEdit(eventRepository.rows, categoryRepository.rows.Keys, eventId, dto, now);
      if spec.Err? {
        return Err(spec.error);
      }
      AdminEditKeepsSaved(eventRepository.rows, categoryRepository.rows.Keys, eventId, dto, now);
      eventRepository.Update(spec.value);
      var v := ViewsOfEvent(spec.value.id.GetOr(0), byUri);
      result := Ok(ToFullDto(spec.value, ConfirmedCount(requestRepository.rows, spec.value), v));
    }

    /** getPublicEvent: a published event, with one more view than the stats
        service counted before this one. */
    method GetPublicEvent(eventId: int, byUri: Option<map<string, int>>) returns (result: Result<EventFullDto>)
      ensures result.Err? <==> !(1 <= eventId <= |eventRepository.rows|)
                               || eventRepository.rows[eventId - 1].state != Some(PUBLISHED)
      ensures result.Err? ==> result.error == NotFound
      ensures result.Ok? ==>
        var e := eventRepository.rows[eventId - 1];
        result.value == ToFullDto(e, ConfirmedCount(requestRepository.rows, e), ViewsOf(Answer(byUri), e.id.GetOr(0)) + 1)
        && result.value.state == Some("PUBLISHED")
    {
      var found := FindById(eventRepository.rows, eventId);
      if found.None? || found.value.state != Some(PUBLISHED) {
        return Err(NotFound);
      }
      var e := found.value;
      var before := ViewsOfEvent(e.id.GetOr(0), byUri);
      result := Ok(ToFullDto(e, ConfirmedCount(requestRepository.rows, e), before + 1));
    }

    /** searchAdmin: at most a page of full views of the events that pass
        the filter, newest id first. */
    method SearchAdminEvents(q: AdminQuery, byUri: Option<map<string, int>>) returns (result: Result<seq<EventFullDto>>)
      ensures result == AdminSearch(eventRepository.rows, requestRepository.rows, q, Answer(byUri))
      ensures result.Ok? ==> |result.value| <= q.size
      ensures result.Ok? ==> StatesOf(q.states).Ok? && ParseRange(q.rangeStart, q.rangeEnd).Ok?
      ensures result.Ok? ==>
        var states := StatesOf(q.states).value;
        var range := ParseRange(q.rangeStart, q.rangeEnd).value;
        forall d :: d in result.value ==>
          exists e :: (e in eventRepository.rows
                       && MatchesAdmin(e, AdminFilter(q.users, states, q.categories, range.0, range.1))
                       && d == FullView(requestRepository.rows, Answer(byUri), e))
      ensures result.Ok? ==> forall i, j :: 0 <= i < j < |result.value| ==>
        result.value[i].id.GetOr(0) >= result.value[j].id.GetOr(0)
    {
      result := AdminSearch(eventRepository.rows, requestRepository.rows, q, Answer(byUri));
      if result.Ok? {
        AdminSearchResult(eventRepository.rows, requestRepository.rows, q, Answer(byUri));
      }
    }

    /** searchPublic. */
    method SearchPublicEvents(q: PublicQuery, now: int, byUri: Option<map<string, int>>)
      returns (result: Result<seq<EventShortDto>>)
      ensures result == PublicSearch(eventRepository.rows, requestRepository.rows, q, now, Answer(byUri))
    {
      var f := PublicFilterOf(q, now);
      if f.Err? {
        return Err(f.error);
      }
      var page := By(q.from, q.size, if ByViews(q.sort) then Unsorted else OrderBy("eventDate", true));
      if page.Err? {
        return Err(page.error);
      }
      var shown := PublicPage(eventRepository.rows, f.value, q.sort, page.value);
      if q.onlyAvailable == Some(true) {
        shown := Available(requestRepository.rows, shown);
      }
      var dtos := EnrichShort(shown, byUri);
      if ByViews(q.sort) {
        dtos := SortDesc(dtos, ViewsKey);
      }
      result := Ok(dtos);
    }
  }
}
