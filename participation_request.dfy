/**
 * ParticipationRequest and its table.  A user asks once per event (the
 * table is unique on the pair event/requester); requests are never deleted,
 * and ids are handed out 1, 2, 3, ... so the row of request `id` is the
 * element at position `id - 1`.  The derived queries of the repository are
 * functions over the rows; the ones that write are methods.
 */
module Requests {
  import opened Common

  datatype RequestStatus = PENDING | CONFIRMED | REJECTED | CANCELED

  datatype ParticipationRequest = ParticipationRequest(
    id: int, created: int, event: int, requester: int, status: RequestStatus)

  /** Row `i` carries id `i + 1`. */
  ghost predicate IdsAreIndices(rows: seq<ParticipationRequest>)
  {
    forall i :: 0 <= i < |rows| ==> rows[i].id == i + 1
  }

  /** The unique constraint on (event_id, requester_id). */
  ghost predicate UniquePairs(rows: seq<ParticipationRequest>)
  {
    forall i, j :: 0 <= i < j < |rows| ==>
      rows[i].event != rows[j].event || rows[i].requester != rows[j].requester
  }

  ghost predicate WellFormed(rows: seq<ParticipationRequest>)
  {
    IdsAreIndices(rows) && UniquePairs(rows)
  }

  // ---------------------------------------------------------------------
  // Derived queries
  // ---------------------------------------------------------------------

  /** 1 when `r` belongs to event `eventId` and has status `s`. */
  function Matches(r: ParticipationRequest, eventId: int, s: RequestStatus): nat
  {
    if r.event == eventId && r.status == s then 1 else 0
  }

  /** countByEventIdAndStatus. */
  function CountWhere(rows: seq<ParticipationRequest>, eventId: int, s: RequestStatus): (n: nat)
    ensures n <= |rows|
  {
    if rows == [] then 0 else Matches(rows[0], eventId, s) + CountWhere(rows[1..], eventId, s)
  }

  /** existsByRequesterAndEvent. */
  predicate ExistsPair(rows: seq<ParticipationRequest>, requester: int, eventId: int)
  {
    exists i :: 0 <= i < |rows| && rows[i].requester == requester && rows[i].event == eventId
  }

  /** findAllByEvent, in table order. */
  function ByEvent(rows: seq<ParticipationRequest>, eventId: int): (r: seq<ParticipationRequest>)
    ensures forall x :: x in r <==> x in rows && x.event == eventId
    ensures |r| <= |rows|
  {
    if rows == [] then []
    else
      var rest := ByEvent(rows[1..], eventId);
      assert forall x :: x in rows <==> x == rows[0] || x in rows[1..];
      if rows[0].event == eventId then [rows[0]] + rest else rest
  }

  /** findAllByRequester, in table order. */
  function ByRequester(rows: seq<ParticipationRequest>, requester: int): (r: seq<ParticipationRequest>)
    ensures forall x :: x in r <==> x in rows && x.requester == requester
    ensures |r| <= |rows|
  {
    if rows == [] then []
    else
      var rest := ByRequester(rows[1..], requester);
      assert forall x :: x in rows <==> x == rows[0] || x in rows[1..];
      if rows[0].requester == requester then [rows[0]] + rest else rest
  }

  /** findAllById: the rows named by `ids`, each once; unknown ids are
      skipped.  The order of the rows is the order of first mention. */
  function FindAllById(rows: seq<ParticipationRequest>, ids: seq<int>): (r: seq<ParticipationRequest>)
    ensures |r| == |DistinctPresent(|rows|, ids)| <= |ids|
    ensures forall k :: 0 <= k < |r| ==>
      1 <= DistinctPresent(|rows|, ids)[k] <= |rows| && r[k] == rows[DistinctPresent(|rows|, ids)[k] - 1]
  {
    var p := DistinctPresent(|rows|, ids);
    seq(|p|, k requires 0 <= k < |p| => rows[p[k] - 1])
  }

  /** Saving a row read earlier: it replaces the row with its id. */
  function Put(rows: seq<ParticipationRequest>, u: ParticipationRequest): (r: seq<ParticipationRequest>)
    requires 1 <= u.id <= |rows|
    ensures |r| == |rows|
  {
    rows[u.id - 1 := u]
  }

  /** All ids of `us` name rows of `rows`. */
  predicate AllPresent(rows: seq<ParticipationRequest>, us: seq<ParticipationRequest>)
  {
    forall k :: 0 <= k < |us| ==> 1 <= us[k].id <= |rows|
  }

  /** saveAll: the rows saved one after the other. */
  function Overwrite(rows: seq<ParticipationRequest>, us: seq<ParticipationRequest>): (r: seq<ParticipationRequest>)
    requires AllPresent(rows, us)
    ensures |r| == |rows|
    decreases |us|
  {
    if us == [] then rows
    else Put(Overwrite(rows, us[..|us| - 1]), us[|us| - 1])
  }

  /** The bulk update behind rejectAllPendingByEventId: every PENDING request
      of the event becomes REJECTED. */
  function RejectPending(rows: seq<ParticipationRequest>, eventId: int): (r: seq<ParticipationRequest>)
    ensures |r| == |rows|
  {
    seq(|rows|, i requires 0 <= i < |rows| =>
      if rows[i].event == eventId && rows[i].status == PENDING then rows[i].(status := REJECTED)
      else rows[i])
  }

  /** Every request of `rs` with its status replaced by `s`. */
  function WithStatus(rs: seq<ParticipationRequest>, s: RequestStatus): (r: seq<ParticipationRequest>)
    ensures |r| == |rs|
    ensures forall k :: 0 <= k < |rs| ==> r[k] == rs[k].(status := s)
  {
    seq(|rs|, k requires 0 <= k < |rs| => rs[k].(status := s))
  }

  // ---------------------------------------------------------------------
  // Counting lemmas
  // ---------------------------------------------------------------------

  /** A request added at the end counts once if it matches. */
  lemma {:induction false} CountAppend(rows: seq<ParticipationRequest>, r: ParticipationRequest,
                                       eventId: int, s: RequestStatus)
    ensures CountWhere(rows + [r], eventId, s) == CountWhere(rows, eventId, s) + Matches(r, eventId, s)
  {
    if rows != [] {
      assert (rows + [r])[1..] == rows[1..] + [r];
      CountAppend(rows[1..], r, eventId, s);
    }
  }

  /** Replacing one row changes the count by the difference of the two. */
  lemma {:induction false} CountUpdate(rows: seq<ParticipationRequest>, i: int, v: ParticipationRequest,
                                       eventId: int, s: RequestStatus)
    requires 0 <= i < |rows|
    ensures CountWhere(rows[i := v], eventId, s)
            == CountWhere(rows, eventId, s) - Matches(rows[i], eventId, s) + Matches(v, eventId, s)
  {
    if i == 0 {
      assert rows[i := v][1..] == rows[1..];
    } else {
      assert rows[i := v][1..] == rows[1..][i - 1 := v];
      CountUpdate(rows[1..], i - 1, v, eventId, s);
    }
  }

  /** Saving `us` adds at most one matching row per saved request. */
  lemma {:induction false} CountOverwrite(rows: seq<ParticipationRequest>, us: seq<ParticipationRequest>,
                                          eventId: int, s: RequestStatus)
    requires AllPresent(rows, us)
    ensures CountWhere(Overwrite(rows, us), eventId, s) <= CountWhere(rows, eventId, s) + |us|
    decreases |us|
  {
    if us != [] {
      var prefix := us[..|us| - 1];
      var u := us[|us| - 1];
      CountOverwrite(rows, prefix, eventId, s);
      CountUpdate(Overwrite(rows, prefix), u.id - 1, u, eventId, s);
    }
  }

  /** Saving requests none of which has status `s` never raises the count of `s`. */
  lemma {:induction false} CountOverwriteOther(rows: seq<ParticipationRequest>, us: seq<ParticipationRequest>,
                                               eventId: int, s: RequestStatus)
    requires AllPresent(rows, us)
    requires forall k :: 0 <= k < |us| ==> us[k].status != s
    ensures CountWhere(Overwrite(rows, us), eventId, s) <= CountWhere(rows, eventId, s)
    decreases |us|
  {
    if us != [] {
      var prefix := us[..|us| - 1];
      var u := us[|us| - 1];
      CountOverwriteOther(rows, prefix, eventId, s);
      CountUpdate(Overwrite(rows, prefix), u.id - 1, u, eventId, s);
    }
  }

  lemma RejectPendingTail(rows: seq<ParticipationRequest>, eventId: int)
    requires rows != []
    ensures RejectPending(rows, eventId)[1..] == RejectPending(rows[1..], eventId)
  {
  }

  /** After the bulk update no request of the event is pending; the
      confirmed count of every event is untouched. */
  lemma {:induction false} RejectPendingCounts(rows: seq<ParticipationRequest>, eventId: int, other: int)
    ensures CountWhere(RejectPending(rows, eventId), eventId, PENDING) == 0
    ensures CountWhere(RejectPending(rows, eventId), other, CONFIRMED) == CountWhere(rows, other, CONFIRMED)
    ensures CountWhere(RejectPending(rows, eventId), eventId, REJECTED)
            == CountWhere(rows, eventId, REJECTED) + CountWhere(rows, eventId, PENDING)
  {
    if rows != [] {
      RejectPendingTail(rows, eventId);
      RejectPendingCounts(rows[1..], eventId, other);
    }
  }

  /** Requests of other events are left alone, and running the update
      twice is running it once. */
  lemma RejectPendingFrame(rows: seq<ParticipationRequest>, eventId: int)
    ensures forall i :: 0 <= i < |rows| && rows[i].event != eventId ==> RejectPending(rows, eventId)[i] == rows[i]
    ensures forall i :: 0 <= i < |rows| && rows[i].status != PENDING ==> RejectPending(rows, eventId)[i] == rows[i]
    ensures RejectPending(RejectPending(rows, eventId), eventId) == RejectPending(rows, eventId)
  {
  }

  // ---------------------------------------------------------------------
  // Facts about the queries on a well-formed table
  // ---------------------------------------------------------------------

  /** The rows findAllById returns are rows of the table carrying ids asked
      for, each id once. */
  lemma FindAllByIdRows(rows: seq<ParticipationRequest>, ids: seq<int>)
    requires IdsAreIndices(rows)
    ensures var r := FindAllById(rows, ids);
      AllPresent(rows, r)
      && (forall k :: 0 <= k < |r| ==> rows[r[k].id - 1] == r[k] && r[k].id in ids)
      && (forall k, l :: 0 <= k < l < |r| ==> r[k].id != r[l].id)
  {
    var p := DistinctPresent(|rows|, ids);
    var r := FindAllById(rows, ids);
    forall k | 0 <= k < |r|
      ensures r[k].id == p[k] && p[k] in ids
    {
      assert p[k] in p;
    }
  }

  /** Every known id asked for is among the rows findAllById returns. */
  lemma FindAllByIdComplete(rows: seq<ParticipationRequest>, ids: seq<int>, id: int)
    requires id in ids && 1 <= id <= |rows|
    ensures rows[id - 1] in FindAllById(rows, ids)
  {
    var p := DistinctPresent(|rows|, ids);
    assert id in p;
    var k :| 0 <= k < |p| && p[k] == id;
    assert FindAllById(rows, ids)[k] == rows[id - 1];
  }

  /** Saving requests whose ids are all different leaves each of them in
      place, and every other row as it was. */
  lemma {:induction false} OverwriteContents(rows: seq<ParticipationRequest>, us: seq<ParticipationRequest>)
    requires AllPresent(rows, us)
    requires forall k, l :: 0 <= k < l < |us| ==> us[k].id != us[l].id
    ensures forall k :: 0 <= k < |us| ==> Overwrite(rows, us)[us[k].id - 1] == us[k]
    ensures forall i :: 0 <= i < |rows| && (forall k :: 0 <= k < |us| ==> us[k].id != i + 1)
              ==> Overwrite(rows, us)[i] == rows[i]
    decreases |us|
  {
    if us != [] {
      OverwriteContents(rows, us[..|us| - 1]);
    }
  }

  /** A request appended for a pair not yet present keeps the pairs unique. */
  lemma AppendKeepsWellFormed(rows: seq<ParticipationRequest>, r: ParticipationRequest)
    requires WellFormed(rows)
    requires !ExistsPair(rows, r.requester, r.event)
    requires r.id == |rows| + 1
    ensures WellFormed(rows + [r])
  {
    var rs := rows + [r];
    forall i, j | 0 <= i < j < |rs|
      ensures rs[i].event != rs[j].event || rs[i].requester != rs[j].requester
    {
      if j == |rows| {
        assert rs[i] == rows[i];
      }
    }
  }

  /** Saving a row read earlier with only its status changed keeps ids and
      pairs as they were. */
  lemma PutKeepsWellFormed(rows: seq<ParticipationRequest>, u: ParticipationRequest)
    requires WellFormed(rows)
    requires 1 <= u.id <= |rows| && u == rows[u.id - 1].(status := u.status)
    ensures WellFormed(Put(rows, u))
  {
  }

  // ---------------------------------------------------------------------
  // The table
  // ---------------------------------------------------------------------

  /** ParticipationRequestRepository. */
  class ParticipationRequestRepository {
    var rows: seq<ParticipationRequest>

    ghost predicate Valid()
      reads this
    {
      WellFormed(rows)
    }

    constructor ()
      ensures Valid() && rows == []
    {
      rows := [];
    }

    /** save of a new request; a second request for the same pair violates
        the unique constraint. */
    method Insert(created: int, eventId: int, requester: int, status: RequestStatus)
      returns (r: Result<ParticipationRequest>)
      requires Valid()
      modifies this
      ensures Valid()
      ensures ExistsPair(old(rows), requester, eventId) ==> r == Err(IntegrityViolation) && rows == old(rows)
      ensures !ExistsPair(old(rows), requester, eventId) ==>
        r == Ok(ParticipationRequest(|old(rows)| + 1, created, eventId, requester, status))
        && rows == old(rows) + [r.value]
    {
      if ExistsPair(rows, requester, eventId) {
        r := Err(IntegrityViolation);
      } else {
        var saved := ParticipationRequest(|rows| + 1, created, eventId, requester, status);
        AppendKeepsWellFormed(rows, saved);
        rows := rows + [saved];
        r := Ok(saved);
      }
    }

    /** save of a request read earlier whose status was changed. */
    method Save(u: ParticipationRequest)
      requires Valid()
      requires 1 <= u.id <= |rows| && u == rows[u.id - 1].(status := u.status)
      modifies this
      ensures Valid()
      ensures rows == Put(old(rows), u)
    {
      PutKeepsWellFormed(rows, u);
      rows := rows[u.id - 1 := u];
    }

    /** saveAll of requests read earlier whose status was changed. */
    method SaveAll(us: seq<ParticipationRequest>)
      requires Valid()
      requires forall k :: 0 <= k < |us| ==>
        1 <= us[k].id <= |rows| && us[k] == rows[us[k].id - 1].(status := us[k].status)
      modifies this
      ensures Valid()
      ensures AllPresent(old(rows), us) && rows == Overwrite(old(rows), us)
    {
      ghost var start := rows;
      var i := 0;
      while i < |us|
        invariant 0 <= i <= |us|
        invariant |rows| == |start|
        invariant Valid()
        invariant AllPresent(start, us[..i])
        invariant rows == Overwrite(start, us[..i])
        invariant forall j :: 0 <= j < |rows| ==> rows[j] == start[j].(status := rows[j].status)
      {
        assert us[..i + 1][..i] == us[..i];
        Save(us[i]);
        i := i + 1;
      }
      assert us[..i] == us;
    }

    /** rejectAllPendingByEventId: returns the number of rows updated. */
    method RejectAllPendingByEventId(eventId: int) returns (n: int)
      requires Valid()
      modifies this
      ensures Valid()
      ensures rows == RejectPending(old(rows), eventId)
      ensures n == CountWhere(old(rows), eventId, PENDING)
    {
      n := CountWhere(rows, eventId, PENDING);
      rows := RejectPending(rows, eventId);
    }
  }
}
