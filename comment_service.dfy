/**
 * CommentServiceImpl: comments on published events.  A comment's text is
 * stored trimmed and is never empty; only its author may edit or delete it,
 * and only within five hours of its creation may it be edited; an
 * administrator deletes any comment.  The comment table maps ids to rows and
 * hands out ids from a counter.
 */
module Comments {
  import opened Common
  import opened Events
  import opened Users
  import opened PageUtils
  import opened Sorting

  /** How long after its creation a comment may still be edited. */
  const EDIT_WINDOW: int := 5 * HOUR

  /** A comment; `event` and `author` are the referenced rows' ids. */
  datatype Comment = Comment(id: int, event: int, author: int, text: string,
                             createdOn: Option<int>, updatedOn: Option<int>)

  /** The text a comment is stored with: trimmed and not empty. */
  predicate StoredText(t: string)
  {
    t != [] && Trim(t) == t
  }

  /** What every row of the comment table satisfies. */
  ghost predicate TableValid(rows: map<int, Comment>, nextId: int)
  {
    nextId >= 1 && forall id :: id in rows ==> rows[id].id == id && 1 <= id < nextId && StoredText(rows[id].text)
  }

  /** The text check of addComment and editOwnComment: the trimmed text, or
      BadRequest for a null text or one that trims to nothing. */
  function CheckedText(text: Option<string>): (r: Result<string>)
    ensures r.Err? <==> text.None? || Trim(text.value) == []
    ensures r.Err? ==> r.error == BadRequest
    ensures r.Ok? ==> StoredText(r.value) && r.value == Trim(text.value)
  {
    if text.None? || Trim(text.value) == [] then Err(BadRequest)
    else
      TrimIdempotent(text.value);
      Ok(Trim(text.value))
  }

  /** The comment addComment saves under `nextId`, or the exception. */
  function NewComment(users: set<int>, events: seq<Event>, userId: int, eventId: int, text: Option<string>,
                      now: int, nextId: int): (r: Result<Comment>)
    ensures r.Err? ==> r.error in {NotFound, Conflict, BadRequest}
    ensures r.Ok? ==> r.value.id == nextId && r.value.event == eventId && r.value.author == userId
                      && r.value.createdOn == Some(now) && r.value.updatedOn.None?
  {
    if userId !in users then Err(NotFound)
    else match FindById(events, eventId)
      case None => Err(NotFound)
      case Some(e) =>
        if e.state != Some(PUBLISHED) then Err(Conflict)
        else match CheckedText(text)
          case Err(kind) => Err(kind)
          case Ok(t) => Ok(Comment(nextId, eventId, userId, t, Some(now), None))
  }

  /** When addComment refuses, in its order, and what it stores: the trimmed
      text by the user on the event, created now. */
  lemma NewCommentCases(users: set<int>, events: seq<Event>, userId: int, eventId: int, text: Option<string>,
                        now: int, nextId: int)
    ensures var r := NewComment(users, events, userId, eventId, text, now, nextId);
      (userId !in users ==> r == Err(NotFound))
      && (userId in users && !(1 <= eventId <= |events|) ==> r == Err(NotFound))
      && ((userId in users && 1 <= eventId <= |events| && events[eventId - 1].state != Some(PUBLISHED))
          ==> r == Err(Conflict))
      && ((userId in users && 1 <= eventId <= |events| && events[eventId - 1].state == Some(PUBLISHED))
          ==> (r.Err? <==> text.None? || Trim(text.value) == []))
      && (r.Ok? ==> r.value == Comment(nextId, eventId, userId, Trim(text.value), Some(now), None)
                    && StoredText(r.value.text))
  {
  }

  /** A comment the editor of its text may still change at `now`: one with no
      creation time, or created no more than five hours before. */
  predicate WithinEditWindow(c: Comment, now: int)
  {
    !(c.createdOn.Some? && c.createdOn.value < now - EDIT_WINDOW)
  }

  /** editOwnComment: the edited comment, or the exception. */
  function Edit(users: set<int>, rows: map<int, Comment>, userId: int, commentId: int, text: Option<string>,
                now: int): (r: Result<Comment>)
    ensures r.Err? ==> r.error in {NotFound, BadRequest, Conflict}
    ensures r.Ok? ==> commentId in rows && r.value.id == rows[commentId].id && r.value.author == userId
                      && r.value.event == rows[commentId].event && r.value.updatedOn == Some(now)
  {
    if userId !in users then Err(NotFound)
    else if commentId !in rows then Err(NotFound)
    else
      var c := rows[commentId];
      if c.author != userId then Err(NotFound)
      else match CheckedText(text)
        case Err(kind) => Err(kind)
        case Ok(t) =>
          if !WithinEditWindow(c, now) then Err(Conflict)
          else Ok(c.(text := t, updatedOn := Some(now)))
  }

  /** When editOwnComment refuses, in its order: an unknown user or comment,
      another user's comment, a blank text, an expired window.  An accepted
      edit changes the text and the edit time and nothing else. */
  lemma EditCases(users: set<int>, rows: map<int, Comment>, userId: int, commentId: int, text: Option<string>,
                  now: int)
    ensures var r := Edit(users, rows, userId, commentId, text, now);
      (userId !in users || commentId !in rows ==> r == Err(NotFound))
      && ((userId in users && commentId in rows && rows[commentId].author != userId) ==> r == Err(NotFound))
      && ((userId in users && commentId in rows && rows[commentId].author == userId) ==>
            (text.None? || Trim(text.value) == [] ==> r == Err(BadRequest))
            && (text.Some? && Trim(text.value) != [] ==>
                  (r == Err(Conflict) <==> !WithinEditWindow(rows[commentId], now))))
      && (r.Ok? ==> r.value == rows[commentId].(text := Trim(text.value), updatedOn := Some(now))
                    && StoredText(r.value.text))
  {
  }

  /** Four hours after creation a comment may be edited; six hours after, it
      may not. */
  lemma EditWindowExamples(c: Comment, now: int)
    ensures c.createdOn == Some(now - 4 * HOUR) ==> WithinEditWindow(c, now)
    ensures c.createdOn == Some(now - 6 * HOUR) ==> !WithinEditWindow(c, now)
    ensures c.createdOn == Some(now - EDIT_WINDOW) ==> WithinEditWindow(c, now)
  {
  }

  /** deleteOwnComment: NotFound for an unknown user or comment, or a comment
      of another author. */
  function DeleteOwn(users: set<int>, rows: map<int, Comment>, userId: int, commentId: int): (r: Result<map<int, Comment>>)
    ensures r.Err? ==> r.error == NotFound
    ensures r.Ok? ==> commentId in rows && rows[commentId].author == userId && r.value.Keys == rows.Keys - {commentId}
  {
    if userId !in users then Err(NotFound)
    else if commentId !in rows then Err(NotFound)
    else if rows[commentId].author != userId then Err(NotFound)
    else Ok(rows - {commentId})
  }

  /** Only the author deletes their own comment; the administrator deletes any
      comment that exists; either way only that comment goes. */
  lemma DeletionRules(users: set<int>, rows: map<int, Comment>, userId: int, commentId: int)
    ensures DeleteOwn(users, rows, userId, commentId).Ok? <==>
      userId in users && commentId in rows && rows[commentId].author == userId
    ensures DeleteExisting(rows, commentId).Ok? <==> commentId in rows
    ensures DeleteOwn(users, rows, userId, commentId).Ok? ==>
      DeleteOwn(users, rows, userId, commentId) == DeleteExisting(rows, commentId)
    ensures DeleteExisting(rows, commentId).Ok? ==>
      var after := DeleteExisting(rows, commentId).value;
      commentId !in after && forall id :: id in rows && id != commentId ==> id in after && after[id] == rows[id]
  {
  }

  /** An added comment takes a fresh id and keeps the table valid. */
  lemma NewCommentKeepsTableValid(users: set<int>, events: seq<Event>, rows: map<int, Comment>, nextId: int,
                                  userId: int, eventId: int, text: Option<string>, now: int)
    requires TableValid(rows, nextId)
    requires NewComment(users, events, userId, eventId, text, now, nextId).Ok?
    ensures var c := NewComment(users, events, userId, eventId, text, now, nextId).value;
      c.id == nextId && nextId !in rows && TableValid(rows[nextId := c], nextId + 1)
  {
    NewCommentCases(users, events, userId, eventId, text, now, nextId);
  }

  /** An edit keeps the table valid. */
  lemma EditKeepsTableValid(users: set<int>, rows: map<int, Comment>, nextId: int,
                            userId: int, commentId: int, text: Option<string>, now: int)
    requires TableValid(rows, nextId)
    requires Edit(users, rows, userId, commentId, text, now).Ok?
    ensures TableValid(rows[commentId := Edit(users, rows, userId, commentId, text, now).value], nextId)
  {
    EditCases(users, rows, userId, commentId, text, now);
  }

  // ---------------------------------------------------------------------
  // getEventComments
  // ---------------------------------------------------------------------

  /** The comments of event `eventId` with an id below `n`, by id. */
  function OfEvent(rows: map<int, Comment>, eventId: int, n: nat): (r: seq<Comment>)
    ensures forall c :: c in r <==> exists id :: 1 <= id < n && id in rows && rows[id] == c && c.event == eventId
  {
    if n <= 1 then []
    else
      var before := OfEvent(rows, eventId, n - 1);
      if n - 1 in rows && rows[n - 1].event == eventId then before + [rows[n - 1]] else before
  }

  function CreatedKey(c: Comment): int
  {
    c.createdOn.GetOr(0)
  }

  /** PageRequest.of(from / size, size): a zero size divides by zero, and a
      negative page or a size below one is refused. */
  function CommentPage(from: int, size: int): (r: Result<PageRequest>)
    ensures size == 0 ==> r == Err(Arithmetic)
    ensures size < 0 ==> r == Err(IllegalArgument)
    ensures size > 0 ==> r == ByUnsorted(from, size)
  {
    if size == 0 then Err(Arithmetic)
    else if size < 0 then Err(IllegalArgument)
    else ByUnsorted(from, size)
  }

  /** getEventComments: the page asked for of the event's comments, newest
      first. */
  function EventComments(events: seq<Event>, rows: map<int, Comment>, nextId: nat, eventId: int,
                         from: int, size: int): (r: Result<seq<Comment>>)
    ensures !(1 <= eventId <= |events|) ==> r == Err(NotFound)
    ensures r.Ok? ==> |r.value| <= size
    ensures r.Ok? ==> forall c :: c in r.value ==> c.event == eventId && c in rows.Values
    ensures r.Ok? ==> SortedDesc(r.value, CreatedKey)
  {
    if !(1 <= eventId <= |events|) then Err(NotFound)
    else match CommentPage(from, size)
      case Err(kind) => Err(kind)
      case Ok(page) =>
        var found := OfEvent(rows, eventId, nextId);
        SortedPage(found, CreatedKey, page);
        var content := Content(SortDesc(found, CreatedKey), page);
        Ok(content)
  }

  // ---------------------------------------------------------------------
  // The table and the service
  // ---------------------------------------------------------------------

  class CommentRepository {
    var rows: map<int, Comment>
    var nextId: nat

    ghost predicate Valid()
      reads this
    {
      TableValid(rows, nextId) && forall id :: id in rows ==> rows[id].id == id
    }

    constructor ()
      ensures Valid() && rows == map[] && nextId == 1
    {
      rows := map[];
      nextId := 1;
    }
  }

  class CommentServiceImpl {
    const commentRepository: CommentRepository
    const eventRepository: EventRepository
    const userRepository: UserRepository

    constructor (comments: CommentRepository, events: EventRepository, users: UserRepository)
      ensures commentRepository == comments && eventRepository == events && userRepository == users
    {
      commentRepository := comments;
      eventRepository := events;
      userRepository := users;
    }

    /** getEventComments: NotFound for an unknown event, else at most a
        page of that event's stored comments, newest first. */
    method GetEventComments(eventId: int, from: int, size: int) returns (result: Result<seq<Comment>>)
      ensures result == EventComments(eventRepository.rows, commentRepository.rows, commentRepository.nextId,
                                      eventId, from, size)
      ensures !(1 <= eventId <= |eventRepository.rows|) ==> result == Err(NotFound)
      ensures result.Ok? ==> |result.value| <= size
      ensures result.Ok? ==> forall c :: c in result.value ==> c.event == eventId && c in commentRepository.rows.Values
      ensures result.Ok? ==> SortedDesc(result.value, CreatedKey)
    {
      result := EventComments(eventRepository.rows, commentRepository.rows, commentRepository.nextId,
                              eventId, from, size);
    }

    /** addComment. */
    method AddComment(userId: int, eventId: int, text: Option<string>, now: int) returns (result: Result<Comment>)
      requires commentRepository.Valid()
      modifies commentRepository
      ensures commentRepository.Valid()
      ensures var spec := NewComment(userRepository.ids, eventRepository.rows, userId, eventId, text, now,
                                     old(commentRepository.nextId));
        (spec.Err? ==> result == spec && unchanged(commentRepository))
        && (spec.Ok? ==> result == spec
                         && commentRepository.rows == old(commentRepository.rows)[spec.value.id := spec.value]
                         && commentRepository.nextId == old(commentRepository.nextId) + 1)
    {
      var spec := NewComment(userRepository.ids, eventRepository.rows, userId, eventId, text, now,
                             commentRepository.nextId);
      if spec.Err? {
        return spec;
      }
      NewCommentKeepsTableValid(userRepository.ids, eventRepository.rows, commentRepository.rows,
                                commentRepository.nextId, userId, eventId, text, now);
      NewCommentCases(userRepository.ids, eventRepository.rows, userId, eventId, text, now, commentRepository.nextId);
      commentRepository.rows := commentRepository.rows[spec.value.id := spec.value];
      commentRepository.nextId := commentRepository.nextId + 1;
      result := spec;
    }

    /** editOwnComment. */
    method EditOwnComment(userId: int, commentId: int, text: Option<string>, now: int) returns (result: Result<Comment>)
      requires commentRepository.Valid()
      modifies commentRepository
      ensures commentRepository.Valid()
      ensures var spec := Edit(userRepository.ids, old(commentRepository.rows), userId, commentId, text, now);
        result == spec
        && (spec.Err? ==> unchanged(commentRepository))
        && (spec.Ok? ==> commentRepository.rows == old(commentRepository.rows)[commentId := spec.value]
                         && commentRepository.nextId == old(commentRepository.nextId))
    {
      var spec := Edit(userRepository.ids, commentRepository.rows, userId, commentId, text, now);
      if spec.Err? {
        return spec;
      }
      EditKeepsTableValid(userRepository.ids, commentRepository.rows, commentRepository.nextId,
                          userId, commentId, text, now);
      EditCases(userRepository.ids, commentRepository.rows, userId, commentId, text, now);
      commentRepository.rows := commentRepository.rows[commentId := spec.value];
      result := spec;
    }

    /** deleteOwnComment. */
    method DeleteOwnComment(userId: int, commentId: int) returns (outcome: Outcome)
      requires commentRepository.Valid()
      modifies commentRepository
      ensures commentRepository.Valid()
      ensures var spec := DeleteOwn(userRepository.ids, old(commentRepository.rows), userId, commentId);
        (spec.Err? ==> outcome == Fail(spec.error) && unchanged(commentRepository))
        && (spec.Ok? ==> outcome == Pass && commentRepository.rows == spec.value
                         && commentRepository.nextId == old(commentRepository.nextId))
    {
      var spec := DeleteOwn(userRepository.ids, commentRepository.rows, userId, commentId);
      if spec.Err? {
        return Fail(spec.error);
      }
      commentRepository.rows := spec.value;
      outcome := Pass;
    }

    /** deleteByAdmin. */
    method DeleteCommentByAdmin(commentId: int) returns (outcome: Outcome)
      requires commentRepository.Valid()
      modifies commentRepository
      ensures commentRepository.Valid()
      ensures var spec := DeleteExisting(old(commentRepository.rows), commentId);
        (spec.Err? ==> outcome == Fail(spec.error) && unchanged(commentRepository))
        && (spec.Ok? ==> outcome == Pass && commentRepository.rows == spec.value
                         && commentRepository.nextId == old(commentRepository.nextId))
    {
      if commentId !in commentRepository.rows {
        return Fail(NotFound);
      }
      commentRepository.rows := commentRepository.rows - {commentId};
      outcome := Pass;
    }
  }
}
