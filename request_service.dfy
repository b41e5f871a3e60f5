/**
 * RequestServiceImpl: users ask to take part in published events, cancel
 * their own requests, and initiators confirm or reject the pending requests
 * of their events, within the event's participant limit.
 *
 * Each operation runs in one transaction: when it throws, nothing it wrote
 * stays.  Each method is proved against a closed-form function of the
 * tables before the call (Admission, Cancellation, Resolution), and the
 * lemmas below state what those functions guarantee.
 */
module RequestService {
  import opened Common
  import opened Events
  import opened Requests
  import opened Users

  /** EventRequestStatusUpdateResult. */
  datatype StatusUpdateResult = StatusUpdateResult(
    confirmedRequests: seq<ParticipationRequest>,
    rejectedRequests: seq<ParticipationRequest>)

  /** The target status of a bulk update names CONFIRMED, ignoring case. */
  predicate ConfirmToken(token: Option<string>)
  {
    EqualsIgnoreCase("CONFIRMED", token)
  }

  /** ... or names REJECTED, ignoring case. */
  predicate RejectToken(token: Option<string>)
  {
    EqualsIgnoreCase("REJECTED", token)
  }

  /** The status a new request starts in. */
  function InitialStatus(e: Event): (s: RequestStatus)
    ensures s == CONFIRMED <==> NoModeration(e) || NoLimit(e)
    ensures s == RequestStatus.PENDING <==> !(NoModeration(e) || NoLimit(e))
  {
    if NoModeration(e) || NoLimit(e) then CONFIRMED else RequestStatus.PENDING
  }

  /** The event at position `i` has no more confirmed requests than its
      positive limit allows. */
  ghost predicate WithinLimitAt(events: seq<Event>, rows: seq<ParticipationRequest>, i: int)
    requires 0 <= i < |events|
  {
    HasPositiveLimit(events[i]) ==> CountWhere(rows, i + 1, CONFIRMED) <= events[i].participantLimit.value
  }

  /** Every event is within its limit. */
  ghost predicate CapacityRespected(events: seq<Event>, rows: seq<ParticipationRequest>)
  {
    forall i :: 0 <= i < |events| ==> WithinLimitAt(events, rows, i)
  }

  // ---------------------------------------------------------------------
  // addRequest
  // ---------------------------------------------------------------------

  /** The request addRequest appends, or the exception it throws, checked
      in the order the service checks. */
  function Admission(users: set<int>, events: seq<Event>, rows: seq<ParticipationRequest>,
                     userId: int, eventId: int, now: int): (r: Result<ParticipationRequest>)
    ensures r.Err? ==> r.error == NotFound || r.error == Conflict
    ensures r.Ok? ==> r.value.id == |rows| + 1 && r.value.created == now && r.value.event == eventId
                      && r.value.requester == userId && !ExistsPair(rows, userId, eventId)
  {
    if userId !in users then Err(NotFound)
    else match FindById(events, eventId)
      case None => Err(NotFound)
      case Some(e) =>
        if e.initiator == userId then Err(Conflict)
        else if e.state != Some(PUBLISHED) then Err(Conflict)
        else if ExistsPair(rows, userId, eventId) then Err(Conflict)
        else if HasPositiveLimit(e) && CountWhere(rows, eventId, CONFIRMED) >= e.participantLimit.value
        then Err(Conflict)
        else Ok(ParticipationRequest(|rows| + 1, now, eventId, userId, InitialStatus(e)))
  }

  /** When addRequest refuses, and what it creates otherwise. */
  lemma AdmissionCases(users: set<int>, events: seq<Event>, rows: seq<ParticipationRequest>,
                       userId: int, eventId: int, now: int)
    ensures var r := Admission(users, events, rows, userId, eventId, now);
      (userId !in users ==> r == Err(NotFound))
      && (userId in users && !(1 <= eventId <= |events|) ==> r == Err(NotFound))
      && (r.Ok? <==>
            userId in users && 1 <= eventId <= |events|
            && events[eventId - 1].initiator != userId
            && events[eventId - 1].state == Some(PUBLISHED)
            && !ExistsPair(rows, userId, eventId)
            && !(HasPositiveLimit(events[eventId - 1])
                 && CountWhere(rows, eventId, CONFIRMED) >= events[eventId - 1].participantLimit.value))
      && (r.Ok? ==> r.value == ParticipationRequest(|rows| + 1, now, eventId, userId,
                                                     InitialStatus(events[eventId - 1])))
      && (r.Err? ==> r.error in {NotFound, Conflict})
  {
  }

  /** An accepted request never takes its event past a positive limit. */
  lemma AdmissionWithinLimit(users: set<int>, events: seq<Event>, rows: seq<ParticipationRequest>,
                             userId: int, eventId: int, now: int)
    requires Admission(users, events, rows, userId, eventId, now).Ok?
    requires HasPositiveLimit(events[eventId - 1])
    ensures CountWhere(rows + [Admission(users, events, rows, userId, eventId, now).value], eventId, CONFIRMED)
            <= events[eventId - 1].participantLimit.value
  {
    CountAppend(rows, Admission(users, events, rows, userId, eventId, now).value, eventId, CONFIRMED);
  }

  /** addRequest keeps every event within its limit. */
  lemma AdmissionKeepsCapacity(users: set<int>, events: seq<Event>, rows: seq<ParticipationRequest>,
                               userId: int, eventId: int, now: int)
    requires CapacityRespected(events, rows)
    requires Admission(users, events, rows, userId, eventId, now).Ok?
    ensures CapacityRespected(events, rows + [Admission(users, events, rows, userId, eventId, now).value])
  {
    var r := Admission(users, events, rows, userId, eventId, now).value;
    forall i | 0 <= i < |events|
      ensures WithinLimitAt(events, rows + [r], i)
    {
      CountAppend(rows, r, i + 1, CONFIRMED);
      assert WithinLimitAt(events, rows, i);
    }
  }

  /** addRequest keeps ids dense and one request per user and event. */
  lemma AdmissionKeepsWellFormed(users: set<int>, events: seq<Event>, rows: seq<ParticipationRequest>,
                                 userId: int, eventId: int, now: int)
    requires WellFormed(rows)
    requires Admission(users, events, rows, userId, eventId, now).Ok?
    ensures WellFormed(rows + [Admission(users, events, rows, userId, eventId, now).value])
  {
    AppendKeepsWellFormed(rows, Admission(users, events, rows, userId, eventId, now).value);
  }

  // ---------------------------------------------------------------------
  // cancelRequest
  // ---------------------------------------------------------------------

  /** The request as cancelRequest saves it, or the exception it throws. */
  function Cancellation(users: set<int>, rows: seq<ParticipationRequest>, userId: int, requestId: int)
    : (r: Result<ParticipationRequest>)
    ensures r.Err? ==> r.error == NotFound
    ensures r.Ok? ==> 1 <= requestId <= |rows| && r.value.requester == userId
                      && r.value.status == RequestStatus.CANCELED
  {
    if userId !in users then Err(NotFound)
    else match FindById(rows, requestId)
      case None => Err(NotFound)
      case Some(pr) =>
        if pr.requester != userId then Err(NotFound)
        else Ok(pr.(status := RequestStatus.CANCELED))
  }

  /** Only the requester may cancel, whatever the request's status; a
      request of someone else looks like a missing one. */
  lemma CancellationCases(users: set<int>, rows: seq<ParticipationRequest>, userId: int, requestId: int)
    requires IdsAreIndices(rows)
    ensures var r := Cancellation(users, rows, userId, requestId);
      (r.Ok? <==> userId in users && 1 <= requestId <= |rows| && rows[requestId - 1].requester == userId)
      && (r.Err? ==> r.error == NotFound)
      && (r.Ok? ==> r.value == rows[requestId - 1].(status := RequestStatus.CANCELED) && r.value.id == requestId)
  {
  }

  /** Cancelling a confirmed request frees exactly one place of its event;
      no event gains a confirmed request. */
  lemma CancellationFreesPlace(users: set<int>, rows: seq<ParticipationRequest>, userId: int,
                               requestId: int, other: int)
    requires IdsAreIndices(rows)
    requires Cancellation(users, rows, userId, requestId).Ok?
    ensures var after := Put(rows, Cancellation(users, rows, userId, requestId).value);
      CountWhere(after, other, CONFIRMED) <= CountWhere(rows, other, CONFIRMED)
      && (rows[requestId - 1].status == CONFIRMED ==>
            CountWhere(after, rows[requestId - 1].event, CONFIRMED)
            == CountWhere(rows, rows[requestId - 1].event, CONFIRMED) - 1)
  {
    var c := Cancellation(users, rows, userId, requestId).value;
    CountUpdate(rows, requestId - 1, c, other, CONFIRMED);
    CountUpdate(rows, requestId - 1, c, rows[requestId - 1].event, CONFIRMED);
  }

  /** cancelRequest keeps every event within its limit. */
  lemma CancellationKeepsCapacity(users: set<int>, events: seq<Event>, rows: seq<ParticipationRequest>,
                                  userId: int, requestId: int)
    requires IdsAreIndices(rows)
    requires CapacityRespected(events, rows)
    requires Cancellation(users, rows, userId, requestId).Ok?
    ensures CapacityRespected(events, Put(rows, Cancellation(users, rows, userId, requestId).value))
  {
    var after := Put(rows, Cancellation(users, rows, userId, requestId).value);
    forall i | 0 <= i < |events|
      ensures WithinLimitAt(events, after, i)
    {
      CancellationFreesPlace(users, rows, userId, requestId, i + 1);
      assert WithinLimitAt(events, rows, i);
    }
  }

  // ---------------------------------------------------------------------
  // updateEventRequests
  // ---------------------------------------------------------------------

  /** How the checks of updateEventRequests that precede the lookup of
      the requests end when none of them throws. */
  datatype Screening = NothingToDo | Proceed(event: Event, ids: seq<int>, confirm: bool)

  /** The checks of updateEventRequests before the requests are looked up,
      in the order the service makes them. */
  function Screen(events: seq<Event>, userId: int, eventId: int, ids: Option<seq<int>>, token: Option<string>)
    : (r: Result<Screening>)
    ensures r.Ok? <==> 1 <= eventId <= |events| && events[eventId - 1].initiator == userId
                       && !AutoConfirm(events[eventId - 1])
                       && (ids.GetOr([]) == [] || ConfirmToken(token) || RejectToken(token))
    ensures r.Ok? ==> (r.value.NothingToDo? <==> ids.GetOr([]) == [])
    ensures r.Ok? && r.value.Proceed? ==>
      r.value.event == events[eventId - 1] && ids == Some(r.value.ids) && r.value.confirm == ConfirmToken(token)
  {
    match FindById(events, eventId)
    case None => Err(NotFound)
    case Some(e) =>
      if e.initiator != userId then Err(NotFound)
      else if AutoConfirm(e) then Err(Conflict)
      else if ids.GetOr([]) == [] then Ok(NothingToDo)
      else if !ConfirmToken(token) && !RejectToken(token) then Err(BadRequest)
      else Ok(Proceed(e, ids.value, ConfirmToken(token)))
  }

  /** What updateEventRequests returns together with the request table it
      leaves, or the exception it throws.  `ids` and `token` are the body's
      requestIds and status. */
  function Resolution(events: seq<Event>, rows: seq<ParticipationRequest>, userId: int, eventId: int,
                      ids: Option<seq<int>>, token: Option<string>)
    : (r: Result<(StatusUpdateResult, seq<ParticipationRequest>)>)
    requires WellFormed(rows)
    ensures r.Err? ==> r.error == NotFound || r.error == Conflict || r.error == BadRequest
    ensures r.Ok? ==> |r.value.1| == |rows|
  {
    match Screen(events, userId, eventId, ids, token)
    case Err(kind) => Err(kind)
    case Ok(NothingToDo) => Ok((StatusUpdateResult([], []), rows))
    case Ok(Proceed(e, list, confirm)) =>
      FindAllByIdRows(rows, list);
      Apply(rows, eventId, e, FindAllById(rows, list), confirm)
  }

  /** The second half of updateEventRequests: the requests found for the
      body's ids (`targets`) are confirmed (`confirm`) or rejected. */
  function Apply(rows: seq<ParticipationRequest>, eventId: int, e: Event,
                 targets: seq<ParticipationRequest>, confirm: bool)
    : (r: Result<(StatusUpdateResult, seq<ParticipationRequest>)>)
    requires AllPresent(rows, targets)
    ensures r.Err? ==> r.error == Conflict
    ensures r.Err? ==> (exists k :: 0 <= k < |targets| && targets[k].status != RequestStatus.PENDING) || confirm
    ensures r.Ok? ==> |r.value.1| == |rows|
  {
    if exists k :: 0 <= k < |targets| && targets[k].status != RequestStatus.PENDING then Err(Conflict)
    else
      var limit := LimitOrZero(e);
      var before := CountWhere(rows, eventId, CONFIRMED);
      if confirm then
        if limit > 0 && |targets| > 0 && before + |targets| > limit then Err(Conflict)
        else
          var confirmed := WithStatus(targets, CONFIRMED);
          var saved := Overwrite(rows, confirmed);
          var after := if limit > 0 && before + |targets| >= limit then RejectPending(saved, eventId) else saved;
          Ok((StatusUpdateResult(confirmed, []), after))
      else
        var rejected := WithStatus(targets, REJECTED);
        Ok((StatusUpdateResult([], rejected), Overwrite(rows, rejected)))
  }

  /** The refusals of updateEventRequests, in the order they are checked. */
  lemma ResolutionRefusals(events: seq<Event>, rows: seq<ParticipationRequest>, userId: int, eventId: int,
                           ids: Option<seq<int>>, token: Option<string>)
    requires WellFormed(rows)
    ensures var r := Resolution(events, rows, userId, eventId, ids, token);
      (!(1 <= eventId <= |events|) ==> r == Err(NotFound))
      && (1 <= eventId <= |events| && events[eventId - 1].initiator != userId ==> r == Err(NotFound))
      && ((1 <= eventId <= |events| && events[eventId - 1].initiator == userId
           && AutoConfirm(events[eventId - 1])) ==> r == Err(Conflict))
      && ((1 <= eventId <= |events| && events[eventId - 1].initiator == userId
           && !AutoConfirm(events[eventId - 1]) && ids.GetOr([]) == [])
          ==> r == Ok((StatusUpdateResult([], []), rows)))
      && ((1 <= eventId <= |events| && events[eventId - 1].initiator == userId
           && !AutoConfirm(events[eventId - 1]) && ids.GetOr([]) != []
           && !ConfirmToken(token) && !RejectToken(token)) ==> r == Err(BadRequest))
  {
  }

  /** A request named in the body that is not pending makes the whole call
      fail, whichever the target status. */
  lemma ResolutionOnlyPending(events: seq<Event>, rows: seq<ParticipationRequest>, userId: int, eventId: int,
                              ids: seq<int>, token: Option<string>, id: int)
    requires WellFormed(rows)
    requires 1 <= eventId <= |events| && events[eventId - 1].initiator == userId
    requires !AutoConfirm(events[eventId - 1])
    requires ConfirmToken(token) || RejectToken(token)
    requires id in ids && 1 <= id <= |rows| && rows[id - 1].status != RequestStatus.PENDING
    ensures Resolution(events, rows, userId, eventId, Some(ids), token) == Err(Conflict)
  {
    FindAllByIdComplete(rows, ids, id);
    var targets := FindAllById(rows, ids);
    var k :| 0 <= k < |targets| && targets[k] == rows[id - 1];
  }

  /** Confirming fails exactly when there is a positive limit and the
      requests found would take the event's confirmed count past it. */
  lemma ResolutionConfirmLimit(events: seq<Event>, rows: seq<ParticipationRequest>, userId: int, eventId: int,
                               ids: seq<int>, token: Option<string>)
    requires WellFormed(rows)
    requires 1 <= eventId <= |events| && events[eventId - 1].initiator == userId
    requires !AutoConfirm(events[eventId - 1]) && ids != [] && ConfirmToken(token)
    requires forall k :: 0 <= k < |FindAllById(rows, ids)| ==> FindAllById(rows, ids)[k].status == RequestStatus.PENDING
    ensures var k := |FindAllById(rows, ids)|;
      var limit := LimitOrZero(events[eventId - 1]);
      Resolution(events, rows, userId, eventId, Some(ids), token).Err?
      <==> limit > 0 && k > 0 && CountWhere(rows, eventId, CONFIRMED) + k > limit
  {
  }

  /** After a successful update the event is within its limit whenever it
      was before, or at least one request was confirmed. */
  lemma {:induction false} ApplyWithinLimit(rows: seq<ParticipationRequest>, eventId: int, e: Event,
                                            targets: seq<ParticipationRequest>, confirm: bool)
    requires AllPresent(rows, targets)
    requires Apply(rows, eventId, e, targets, confirm).Ok?
    requires HasPositiveLimit(e)
    requires CountWhere(rows, eventId, CONFIRMED) <= e.participantLimit.value || (confirm && |targets| > 0)
    ensures CountWhere(Apply(rows, eventId, e, targets, confirm).value.1, eventId, CONFIRMED)
            <= e.participantLimit.value
  {
    if confirm {
      var confirmed := WithStatus(targets, CONFIRMED);
      var saved := Overwrite(rows, confirmed);
      CountOverwrite(rows, confirmed, eventId, CONFIRMED);
      RejectPendingCounts(saved, eventId, eventId);
    } else {
      CountOverwriteOther(rows, WithStatus(targets, REJECTED), eventId, CONFIRMED);
    }
  }

  /** updateEventRequests never takes an event past its positive limit when
      it was within it, or when it confirms at least one request. */
  lemma ResolutionWithinLimit(events: seq<Event>, rows: seq<ParticipationRequest>, userId: int,
                              eventId: int, ids: Option<seq<int>>, token: Option<string>)
    requires WellFormed(rows)
    requires Resolution(events, rows, userId, eventId, ids, token).Ok?
    requires HasPositiveLimit(events[eventId - 1])
    requires CountWhere(rows, eventId, CONFIRMED) <= events[eventId - 1].participantLimit.value
             || (ConfirmToken(token) && |Resolution(events, rows, userId, eventId, ids, token).value.0.confirmedRequests| > 0)
    ensures CountWhere(Resolution(events, rows, userId, eventId, ids, token).value.1, eventId, CONFIRMED)
            <= events[eventId - 1].participantLimit.value
  {
    var screened := Screen(events, userId, eventId, ids, token);
    if screened.value.Proceed? {
      FindAllByIdRows(rows, screened.value.ids);
      var targets := FindAllById(rows, screened.value.ids);
      assert Resolution(events, rows, userId, eventId, ids, token) == Apply(rows, eventId, screened.value.event, targets, screened.value.confirm);
      ApplyWithinLimit(rows, eventId, screened.value.event, targets, screened.value.confirm);
    }
  }

  /** Every request of `reported` has status `s` and is the row of the
      table `after` that carries its id. */
  ghost predicate StoredAs(reported: seq<ParticipationRequest>, s: RequestStatus, after: seq<ParticipationRequest>)
  {
    forall k :: 0 <= k < |reported| ==>
      reported[k].status == s && 1 <= reported[k].id <= |after| && after[reported[k].id - 1] == reported[k]
  }

  /** Some request of `rs` carries id `id`. */
  predicate Mentions(rs: seq<ParticipationRequest>, id: int)
  {
    exists k :: 0 <= k < |rs| && rs[k].id == id
  }

  /** Only the rows of `reported` differ between `rows` and `after`. */
  ghost predicate OnlyThese(rows: seq<ParticipationRequest>, reported: seq<ParticipationRequest>,
                            after: seq<ParticipationRequest>)
  {
    |after| == |rows| && forall i :: 0 <= i < |rows| && !Mentions(reported, i + 1) ==> after[i] == rows[i]
  }

  /** Outside the reported rows, `after` is `rows`, except that when
      `cascade` holds every pending request of the event is rejected. */
  ghost predicate ConfirmFrame(rows: seq<ParticipationRequest>, reported: seq<ParticipationRequest>,
                               after: seq<ParticipationRequest>, eventId: int, cascade: bool)
  {
    |after| == |rows|
    && forall i :: 0 <= i < |rows| && !Mentions(reported, i + 1) ==>
         after[i] == (if cascade && rows[i].event == eventId && rows[i].status == RequestStatus.PENDING
                      then rows[i].(status := REJECTED) else rows[i])
  }

  /** Confirming stores each request found as confirmed and reports it so;
      once the limit is reached no request of the event is left pending. */
  lemma {:induction false} ApplyConfirms(rows: seq<ParticipationRequest>, eventId: int, e: Event,
                                         targets: seq<ParticipationRequest>)
    requires AllPresent(rows, targets)
    requires forall k, l :: 0 <= k < l < |targets| ==> targets[k].id != targets[l].id
    requires Apply(rows, eventId, e, targets, true).Ok?
    ensures var r := Apply(rows, eventId, e, targets, true).value;
      r.0.rejectedRequests == []
      && |r.0.confirmedRequests| == |targets|
      && StoredAs(r.0.confirmedRequests, CONFIRMED, r.1)
      && (HasPositiveLimit(e) && CountWhere(rows, eventId, CONFIRMED) + |targets| >= e.participantLimit.value
          ==> CountWhere(r.1, eventId, RequestStatus.PENDING) == 0)
  {
    var confirmed := WithStatus(targets, CONFIRMED);
    OverwriteContents(rows, confirmed);
    var saved := Overwrite(rows, confirmed);
    RejectPendingCounts(saved, eventId, eventId);
    RejectPendingFrame(saved, eventId);
  }

  /** Confirming changes no row outside the requests found, except that
      once the limit is reached every pending request of the event is
      rejected. */
  lemma ApplyConfirmsFrame(rows: seq<ParticipationRequest>, eventId: int, e: Event,
                           targets: seq<ParticipationRequest>)
    requires AllPresent(rows, targets)
    requires forall k, l :: 0 <= k < l < |targets| ==> targets[k].id != targets[l].id
    requires Apply(rows, eventId, e, targets, true).Ok?
    ensures var r := Apply(rows, eventId, e, targets, true).value;
      ConfirmFrame(rows, r.0.confirmedRequests, r.1, eventId,
                   HasPositiveLimit(e) && CountWhere(rows, eventId, CONFIRMED) + |targets| >= e.participantLimit.value)
  {
    var confirmed := WithStatus(targets, CONFIRMED);
    OverwriteContents(rows, confirmed);
    var saved := Overwrite(rows, confirmed);
    forall i | 0 <= i < |rows| && !Mentions(confirmed, i + 1)
      ensures saved[i] == rows[i]
    {
      forall k | 0 <= k < |confirmed|
        ensures confirmed[k].id != i + 1
      {
      }
    }
  }

  /** Confirmed requests are stored as confirmed and nothing is reported as
      rejected.  Once the limit is reached every other pending request of
      the event is rejected; no other row changes. */
  lemma ResolutionConfirms(events: seq<Event>, rows: seq<ParticipationRequest>, userId: int,
                           eventId: int, ids: Option<seq<int>>, token: Option<string>)
    requires WellFormed(rows)
    requires ConfirmToken(token)
    requires Resolution(events, rows, userId, eventId, ids, token).Ok?
    ensures var r := Resolution(events, rows, userId, eventId, ids, token).value;
      r.0.rejectedRequests == []
      && StoredAs(r.0.confirmedRequests, CONFIRMED, r.1)
      && (ids.GetOr([]) != [] && HasPositiveLimit(events[eventId - 1])
          && CountWhere(rows, eventId, CONFIRMED) + |r.0.confirmedRequests|
             >= events[eventId - 1].participantLimit.value
          ==> CountWhere(r.1, eventId, RequestStatus.PENDING) == 0)
    ensures var r := Resolution(events, rows, userId, eventId, ids, token).value;
      ConfirmFrame(rows, r.0.confirmedRequests, r.1, eventId,
                   ids.GetOr([]) != [] && HasPositiveLimit(events[eventId - 1])
                   && CountWhere(rows, eventId, CONFIRMED) + |r.0.confirmedRequests|
                      >= events[eventId - 1].participantLimit.value)
  {
    var screened := Screen(events, userId, eventId, ids, token);
    if screened.value.Proceed? {
      FindAllByIdRows(rows, screened.value.ids);
      var targets := FindAllById(rows, screened.value.ids);
      assert Resolution(events, rows, userId, eventId, ids, token) == Apply(rows, eventId, screened.value.event, targets, true);
      ApplyConfirms(rows, eventId, screened.value.event, targets);
      ApplyConfirmsFrame(rows, eventId, screened.value.event, targets);
    }
  }

  /** Rejecting stores each request found as rejected and reports it so;
      every other row stays as it was. */
  lemma {:induction false} ApplyRejects(rows: seq<ParticipationRequest>, eventId: int, e: Event,
                                        targets: seq<ParticipationRequest>)
    requires AllPresent(rows, targets)
    requires forall k, l :: 0 <= k < l < |targets| ==> targets[k].id != targets[l].id
    requires Apply(rows, eventId, e, targets, false).Ok?
    ensures var r := Apply(rows, eventId, e, targets, false).value;
      r.0.confirmedRequests == []
      && |r.0.rejectedRequests| == |targets|
      && StoredAs(r.0.rejectedRequests, REJECTED, r.1)
      && OnlyThese(rows, r.0.rejectedRequests, r.1)
  {
    var rejected := WithStatus(targets, REJECTED);
    OverwriteContents(rows, rejected);
    var after := Overwrite(rows, rejected);
    forall i | 0 <= i < |rows| && !Mentions(rejected, i + 1)
      ensures after[i] == rows[i]
    {
      forall k | 0 <= k < |rejected|
        ensures rejected[k].id != i + 1
      {
      }
    }
  }

  /** Rejecting stores every named request as rejected, reports nothing as
      confirmed, and leaves every other request as it was. */
  lemma ResolutionRejects(events: seq<Event>, rows: seq<ParticipationRequest>, userId: int,
                          eventId: int, ids: Option<seq<int>>, token: Option<string>)
    requires WellFormed(rows)
    requires !ConfirmToken(token)
    requires Resolution(events, rows, userId, eventId, ids, token).Ok?
    ensures var r := Resolution(events, rows, userId, eventId, ids, token).value;
      r.0.confirmedRequests == []
      && StoredAs(r.0.rejectedRequests, REJECTED, r.1)
      && OnlyThese(rows, r.0.rejectedRequests, r.1)
  {
    var screened := Screen(events, userId, eventId, ids, token);
    if screened.value.Proceed? {
      FindAllByIdRows(rows, screened.value.ids);
      var targets := FindAllById(rows, screened.value.ids);
      assert Resolution(events, rows, userId, eventId, ids, token) == Apply(rows, eventId, screened.value.event, targets, false);
      ApplyRejects(rows, eventId, screened.value.event, targets);
    }
  }

  /** The requests named in the body are not checked to belong to the
      event: confirming, within event 1's limit, a pending request of event
      2 takes event 2 past its own limit of one. */
  lemma ResolutionMayOverfillAnotherEvent()
    ensures WellFormed(OverfillRows())
    ensures CapacityRespected(OverfillEvents(), OverfillRows())
    ensures Resolution(OverfillEvents(), OverfillRows(), 10, 1, Some([2]), Some("confirmed")).Ok?
    ensures !CapacityRespected(OverfillEvents(),
                               Resolution(OverfillEvents(), OverfillRows(), 10, 1, Some([2]), Some("confirmed")).value.1)
  {
    var events := OverfillEvents();
    var rows := OverfillRows();
    OverfillBefore();
    OverfillResolution();
    var after := [rows[0], rows[1].(status := CONFIRMED)];
    OverfillAfter(after);
    assert !WithinLimitAt(events, after, 1);
  }

  /** Two published, moderated events: event 1 of user 10 with limit 5 and
      event 2 of user 20 with limit 1. */
  function OverfillEvents(): seq<Event>
  {
    [OverfillExampleEvent(1, 10, 5), OverfillExampleEvent(2, 20, 1)]
  }

  /** Event 2 has one confirmed and one pending request. */
  function OverfillRows(): seq<ParticipationRequest>
  {
    [ParticipationRequest(1, 0, 2, 30, CONFIRMED), ParticipationRequest(2, 0, 2, 31, RequestStatus.PENDING)]
  }

  lemma OverfillBefore()
    ensures WellFormed(OverfillRows())
    ensures CapacityRespected(OverfillEvents(), OverfillRows())
  {
    var events := OverfillEvents();
    var rows := OverfillRows();
    assert CountWhere(rows, 1, CONFIRMED) == 0;
    assert CountWhere(rows, 2, CONFIRMED) == 1;
    assert WithinLimitAt(events, rows, 0) && WithinLimitAt(events, rows, 1);
  }

  lemma OverfillResolution()
    ensures Resolution(OverfillEvents(), OverfillRows(), 10, 1, Some([2]), Some("confirmed"))
            == Ok((StatusUpdateResult([OverfillRows()[1].(status := CONFIRMED)], []),
                   [OverfillRows()[0], OverfillRows()[1].(status := CONFIRMED)]))
  {
    OverfillBefore();
    ConfirmIgnoresCase();
    OverfillTargets();
    OverfillApply();
  }

  lemma ConfirmIgnoresCase()
    ensures ConfirmToken(Some("confirmed"))
  {
    assert Lower("CONFIRMED") == Lower("confirmed");
  }

  lemma OverfillTargets()
    ensures FindAllById(OverfillRows(), [2]) == [OverfillRows()[1]]
  {
    var p := DistinctPresent(2, [2]);
    assert 2 in p;
    assert |p| == 1;
    assert p[0] == 2;
  }

  lemma OverfillApply()
    ensures Apply(OverfillRows(), 1, OverfillEvents()[0], [OverfillRows()[1]], true)
            == Ok((StatusUpdateResult([OverfillRows()[1].(status := CONFIRMED)], []),
                   [OverfillRows()[0], OverfillRows()[1].(status := CONFIRMED)]))
  {
    var rows := OverfillRows();
    var confirmed := WithStatus([rows[1]], CONFIRMED);
    assert confirmed == [rows[1].(status := CONFIRMED)];
    assert confirmed[..0] == [];
    assert Overwrite(rows, confirmed[..0]) == rows;
    assert Overwrite(rows, confirmed) == rows[1 := confirmed[0]] == [rows[0], rows[1].(status := CONFIRMED)];
    assert CountWhere(rows, 1, CONFIRMED) == 0;
    assert LimitOrZero(OverfillEvents()[0]) == 5;
    assert !exists k :: 0 <= k < |[rows[1]]| && [rows[1]][k].status != RequestStatus.PENDING;
  }

  lemma OverfillAfter(after: seq<ParticipationRequest>)
    requires after == [OverfillRows()[0], OverfillRows()[1].(status := CONFIRMED)]
    ensures CountWhere(after, 2, CONFIRMED) == 2
  {
    assert after[1..][1..] == [];
  }

  /** A published, moderated event with a positive limit, for the example. */
  function OverfillExampleEvent(id: int, initiator: int, limit: int): Event
  {
    Event(Some(id), "annotation", 1, "description", 0, initiator, Coordinates(0.0, 0.0),
          Some(false), Some(limit), Some(true), "title", Some(PUBLISHED), Some(0), Some(0))
  }

  // ---------------------------------------------------------------------
  // The service
  // ---------------------------------------------------------------------

  class RequestServiceImpl {
    const requestRepository: ParticipationRequestRepository
    const eventRepository: EventRepository
    const userRepository: UserRepository

    ghost predicate Valid()
      reads requestRepository
    {
      requestRepository.Valid()
    }

    constructor (requests: ParticipationRequestRepository, events: EventRepository, users: UserRepository)
      ensures requestRepository == requests && eventRepository == events && userRepository == users
    {
      requestRepository := requests;
      eventRepository := events;
      userRepository := users;
    }

    /** getUserRequests: every request of the user. */
    method GetUserRequests(userId: int) returns (result: Result<seq<ParticipationRequest>>)
      ensures userId !in userRepository.ids ==> result == Err(NotFound)
      ensures userId in userRepository.ids ==> result.Ok?
      ensures result.Ok? ==> forall r :: r in result.value <==> r in requestRepository.rows && r.requester == userId
    {
      if userId !in userRepository.ids {
        return Err(NotFound);
      }
      result := Ok(ByRequester(requestRepository.rows, userId));
    }

    /** getEventRequests: every request of the event, for its initiator only. */
    method GetEventRequests(userId: int, eventId: int) returns (result: Result<seq<ParticipationRequest>>)
      ensures result.Err? <==> (!(1 <= eventId <= |eventRepository.rows|)
                                || eventRepository.rows[eventId - 1].initiator != userId)
      ensures result.Err? ==> result.error == NotFound
      ensures result.Ok? ==> forall r :: r in result.value <==> r in requestRepository.rows && r.event == eventId
    {
      var found := FindById(eventRepository.rows, eventId);
      if found.None? || found.value.initiator != userId {
        return Err(NotFound);
      }
      result := Ok(ByEvent(requestRepository.rows, eventId));
    }

    /** addRequest. */
    method AddRequest(userId: int, eventId: int, now: int) returns (result: Result<ParticipationRequest>)
      requires Valid()
      modifies requestRepository
      ensures Valid()
      ensures result == Admission(userRepository.ids, eventRepository.rows, old(requestRepository.rows),
                                  userId, eventId, now)
      ensures result.Ok? ==> requestRepository.rows == old(requestRepository.rows) + [result.value]
      ensures result.Err? ==> requestRepository.rows == old(requestRepository.rows)
    {
      if userId !in userRepository.ids {
        return Err(NotFound);
      }
      var found := FindById(eventRepository.rows, eventId);
      if found.None? {
        return Err(NotFound);
      }
      var event := found.value;
      if event.initiator == userId {
        return Err(Conflict);
      }
      if event.state != Some(PUBLISHED) {
        return Err(Conflict);
      }
      if ExistsPair(requestRepository.rows, userId, eventId) {
        return Err(Conflict);
      }
      if event.participantLimit.Some? && event.participantLimit.value > 0 {
        var confirmed := CountWhere(requestRepository.rows, eventId, CONFIRMED);
        if confirmed >= event.participantLimit.value {
          return Err(Conflict);
        }
      }
      var noModeration := event.requestModeration == Some(false);
      var noLimit := event.participantLimit == Some(0);
      var status := if noModeration || noLimit then CONFIRMED else RequestStatus.PENDING;
      result := requestRepository.Insert(now, eventId, userId, status);
    }

    /** cancelRequest. */
    method CancelRequest(userId: int, requestId: int) returns (result: Result<ParticipationRequest>)
      requires Valid()
      modifies requestRepository
      ensures Valid()
      ensures result == Cancellation(userRepository.ids, old(requestRepository.rows), userId, requestId)
      ensures result.Ok? ==> requestRepository.rows == Put(old(requestRepository.rows), result.value)
      ensures result.Err? ==> requestRepository.rows == old(requestRepository.rows)
    {
      if userId !in userRepository.ids {
        return Err(NotFound);
      }
      var found := FindById(requestRepository.rows, requestId);
      if found.None? {
        return Err(NotFound);
      }
      var pr := found.value;
      if pr.requester != userId {
        return Err(NotFound);
      }
      pr := pr.(status := RequestStatus.CANCELED);
      requestRepository.Save(pr);
      result := Ok(pr);
    }

    /** updateEventRequests. */
    method UpdateEventRequests(userId: int, eventId: int, ids: Option<seq<int>>, token: Option<string>)
      returns (result: Result<StatusUpdateResult>)
      requires Valid()
      modifies requestRepository
      ensures Valid()
      ensures var spec := Resolution(eventRepository.rows, old(requestRepository.rows), userId, eventId, ids, token);
        (spec.Ok? ==> result == Ok(spec.value.0) && requestRepository.rows == spec.value.1)
        && (spec.Err? ==> result == Err(spec.error) && requestRepository.rows == old(requestRepository.rows))
    {
      var screened := Screen(eventRepository.rows, userId, eventId, ids, token);
      if screened.Err? {
        return Err(screened.error);
      }
      if screened.value.NothingToDo? {
        return Ok(StatusUpdateResult([], []));
      }
      var requests := FindAllById(requestRepository.rows, screened.value.ids);
      FindAllByIdRows(requestRepository.rows, screened.value.ids);
      result := ApplyTo(eventId, screened.value.event, requests, screened.value.confirm);
    }

    /** The second half of updateEventRequests, on the requests found. */
    method ApplyTo(eventId: int, event: Event, requests: seq<ParticipationRequest>, confirm: bool)
      returns (result: Result<StatusUpdateResult>)
      requires Valid()
      requires forall k :: 0 <= k < |requests| ==>
        1 <= requests[k].id <= |requestRepository.rows| && requestRepository.rows[requests[k].id - 1] == requests[k]
      modifies requestRepository
      ensures Valid()
      ensures var spec := Apply(old(requestRepository.rows), eventId, event, requests, confirm);
        (spec.Ok? ==> result == Ok(spec.value.0) && requestRepository.rows == spec.value.1)
        && (spec.Err? ==> result == Err(spec.error) && requestRepository.rows == old(requestRepository.rows))
    {
      if exists k :: 0 <= k < |requests| && requests[k].status != RequestStatus.PENDING {
        return Err(Conflict);
      }
      var confirmedNow := CountWhere(requestRepository.rows, eventId, CONFIRMED);
      var limit := if event.participantLimit.None? then 0 else event.participantLimit.value;
      if confirm {
        var ok, confirmed := ConfirmEach(requests, confirmedNow, limit);
        if !ok {
          return Err(Conflict);
        }
        // The bulk update flushes the confirmations first; the final saveAll
        // writes the same rows again.
        requestRepository.SaveAll(confirmed);
        if limit > 0 && confirmedNow + |requests| >= limit {
          var _ := requestRepository.RejectAllPendingByEventId(eventId);
        }
        result := Ok(StatusUpdateResult(confirmed, []));
      } else {
        var rejected := RejectEach(requests);
        requestRepository.SaveAll(rejected);
        result := Ok(StatusUpdateResult([], rejected));
      }
    }
  }

  /** The confirmation loop of updateEventRequests: before each request the
      running count of confirmed requests is checked against a positive
      limit, and the first request that finds it reached fails the call. */
  method ConfirmEach(requests: seq<ParticipationRequest>, confirmedBefore: int, limit: int)
    returns (ok: bool, confirmed: seq<ParticipationRequest>)
    ensures ok <==> !(limit > 0 && |requests| > 0 && confirmedBefore + |requests| > limit)
    ensures ok ==> confirmed == WithStatus(requests, CONFIRMED)
  {
    var confirmedNow := confirmedBefore;
    confirmed := [];
    var i := 0;
    while i < |requests|
      invariant 0 <= i <= |requests|
      invariant confirmedNow == confirmedBefore + i
      invariant confirmed == WithStatus(requests[..i], CONFIRMED)
      invariant limit > 0 && i > 0 ==> confirmedNow <= limit
    {
      if limit > 0 && confirmedNow >= limit {
        return false, confirmed;
      }
      assert WithStatus(requests[..i + 1], CONFIRMED) == confirmed + [requests[i].(status := CONFIRMED)];
      confirmed := confirmed + [requests[i].(status := CONFIRMED)];
      confirmedNow := confirmedNow + 1;
      i := i + 1;
    }
    assert requests[..i] == requests;
    ok := true;
  }

  /** The rejection loop of updateEventRequests. */
  method RejectEach(requests: seq<ParticipationRequest>) returns (rejected: seq<ParticipationRequest>)
    ensures rejected == WithStatus(requests, REJECTED)
  {
    rejected := [];
    var i := 0;
    while i < |requests|
      invariant 0 <= i <= |requests|
      invariant rejected == WithStatus(requests[..i], REJECTED)
    {
      assert WithStatus(requests[..i + 1], REJECTED) == rejected + [requests[i].(status := REJECTED)];
      rejected := rejected + [requests[i].(status := REJECTED)];
      i := i + 1;
    }
    assert requests[..i] == requests;
  }
}
