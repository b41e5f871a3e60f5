/**
 * CompilationServiceImpl: named, optionally pinned, sets of events.  Event
 * ids given by a request are resolved against the event table, and any id
 * that does not name a distinct event makes the request NotFound.  Titles
 * are unique (the uq_compilation_title constraint), so a clashing title is
 * an integrity violation.  A compilation's events are kept as event ids;
 * its view lists each of them with zero requests and zero views.
 */
module Compilations {
  import opened Common
  import opened Events
  import opened EventMapper
  import opened PageUtils

  datatype Compilation = Compilation(id: int, title: string, pinned: bool, events: set<int>)

  /** NewCompilationDto; an absent `pinned` reads as false. */
  datatype NewCompilationDto = NewCompilationDto(events: Option<seq<int>>, pinned: bool, title: string)

  /** UpdateCompilationRequest: every field optional. */
  datatype UpdateCompilationRequest = UpdateCompilationRequest(events: Option<seq<int>>, pinned: Option<bool>,
                                                               title: Option<string>)

  /** CompilationDto; the events' order is that of a hash set, so a set here. */
  datatype CompilationDto = CompilationDto(id: int, title: string, pinned: bool, events: set<EventShortDto>)

  /** The ids of `ids` as a set. */
  function Elements(ids: seq<int>): set<int>
  {
    set k | 0 <= k < |ids| :: ids[k]
  }

  /** resolveEvents over a table of `eventCount` events: no ids is no events;
      otherwise every id must name an event, each once. */
  function ResolveEvents(eventCount: int, ids: Option<seq<int>>): (r: Result<set<int>>)
    ensures r.Err? ==> r.error == NotFound
    ensures r.Ok? ==> forall id :: id in r.value ==> 1 <= id <= eventCount
  {
    if ids.None? || ids.value == [] then Ok({})
    else
      var found := DistinctPresent(eventCount, ids.value);
      if |found| != |ids.value| then Err(NotFound)
      else Ok(set k | 0 <= k < |found| :: found[k])
  }

  /** resolveEvents succeeds exactly for a list of distinct existing event
      ids, and then yields those ids. */
  lemma ResolveEventsCases(eventCount: int, ids: Option<seq<int>>)
    ensures ids.None? || ids.value == [] ==> ResolveEvents(eventCount, ids) == Ok({})
    ensures ids.Some? && ids.value != [] ==>
      (ResolveEvents(eventCount, ids).Ok? <==>
         (forall k :: 0 <= k < |ids.value| ==> 1 <= ids.value[k] <= eventCount) && NoDuplicates(ids.value))
    ensures ResolveEvents(eventCount, ids).Ok? && ids.Some? ==> ResolveEvents(eventCount, ids).value == Elements(ids.value)
  {
    if ids.Some? && ids.value != [] {
      DistinctPresentAll(eventCount, ids.value);
      var found := DistinctPresent(eventCount, ids.value);
      if |found| == |ids.value| {
        var r := ResolveEvents(eventCount, ids).value;
        forall id | id in Elements(ids.value)
          ensures id in r
        {
          var k :| 0 <= k < |ids.value| && ids.value[k] == id;
          assert id in found;
        }
        forall id | id in r
          ensures id in Elements(ids.value)
        {
          var k :| 0 <= k < |found| && found[k] == id;
          assert id in ids.value;
        }
      }
    }
  }

  /** Because the events found are compared with the ids by count, naming
      an existing event twice is NotFound. */
  lemma ResolveEventsRefusesRepeats()
    ensures ResolveEvents(5, Some([1, 1])) == Err(NotFound)
  {
    ResolveEventsCases(5, Some([1, 1]));
    assert !NoDuplicates([1, 1]);
  }

  /** Some compilation other than `except` has the title. */
  predicate TitleTaken(rows: map<int, Compilation>, title: string, except: int)
  {
    exists id :: id in rows && id != except && rows[id].title == title
  }

  /** No two compilations share a title. */
  ghost predicate TitlesDistinct(rows: map<int, Compilation>)
  {
    forall a, b :: a in rows && b in rows && a != b ==> rows[a].title != rows[b].title
  }

  /** Every row is stored under its own id, below the next id. */
  ghost predicate IdsConsistent(rows: map<int, Compilation>, nextId: int)
  {
    forall id :: id in rows ==> rows[id].id == id && 1 <= id < nextId
  }

  /** create: the compilation saved under `nextId`, or the exception. */
  function Creation(rows: map<int, Compilation>, nextId: int, eventCount: int, dto: NewCompilationDto): (r: Result<Compilation>)
    ensures r.Err? ==> r.error == NotFound || r.error == IntegrityViolation
    ensures r.Ok? ==> r.value.id == nextId && r.value.title == dto.title && r.value.pinned == dto.pinned
                      && !TitleTaken(rows, dto.title, nextId)
  {
    match ResolveEvents(eventCount, dto.events)
    case Err(kind) => Err(kind)
    case Ok(events) =>
      if TitleTaken(rows, dto.title, nextId) then Err(IntegrityViolation)
      else Ok(Compilation(nextId, dto.title, dto.pinned, events))
  }

  /** update: the compilation after the request, or the exception.  A null
      field keeps the old value; a list of events replaces the old set. */
  function Updated(rows: map<int, Compilation>, eventCount: int, compId: int, dto: UpdateCompilationRequest): (r: Result<Compilation>)
    ensures r.Err? ==> r.error == NotFound || r.error == IntegrityViolation
    ensures r.Ok? ==> compId in rows && r.value.id == rows[compId].id && !TitleTaken(rows, r.value.title, compId)
  {
    if compId !in rows then Err(NotFound)
    else
      var c := rows[compId];
      var events := if dto.events.None? then Ok(c.events) else ResolveEvents(eventCount, dto.events);
      if events.Err? then Err(events.error)
      else
        var u := c.(title := dto.title.GetOr(c.title), pinned := dto.pinned.GetOr(c.pinned), events := events.value);
        if TitleTaken(rows, u.title, compId) then Err(IntegrityViolation)
        else Ok(u)
  }

  /** A new compilation keeps titles distinct, takes a fresh id and only
      holds existing events. */
  lemma CreationKeepsTable(rows: map<int, Compilation>, nextId: int, eventCount: int, dto: NewCompilationDto)
    requires TitlesDistinct(rows) && IdsConsistent(rows, nextId) && nextId >= 1
    requires Creation(rows, nextId, eventCount, dto).Ok?
    ensures var c := Creation(rows, nextId, eventCount, dto).value;
      nextId !in rows && c.id == nextId && c.title == dto.title && c.pinned == dto.pinned
      && TitlesDistinct(rows[nextId := c]) && IdsConsistent(rows[nextId := c], nextId + 1)
      && (forall id :: id in c.events ==> 1 <= id <= eventCount)
  {
    var c := Creation(rows, nextId, eventCount, dto).value;
    var r := rows[nextId := c];
    forall a, b | a in r && b in r && a != b
      ensures r[a].title != r[b].title
    {
      if a == nextId {
        assert !(b in rows && b != nextId && rows[b].title == dto.title);
      } else if b == nextId {
        assert !(a in rows && a != nextId && rows[a].title == dto.title);
      }
    }
  }

  /** An update changes only the fields the request gives, keeps titles
      distinct, and a request with every field null changes nothing. */
  lemma UpdateKeepsTable(rows: map<int, Compilation>, nextId: int, eventCount: int, compId: int,
                         dto: UpdateCompilationRequest)
    requires TitlesDistinct(rows) && IdsConsistent(rows, nextId)
    requires Updated(rows, eventCount, compId, dto).Ok?
    ensures var c := rows[compId];
      var u := Updated(rows, eventCount, compId, dto).value;
      u.id == compId
      && u.title == dto.title.GetOr(c.title) && u.pinned == dto.pinned.GetOr(c.pinned)
      && (dto.events.None? ==> u.events == c.events)
      && (dto.events.Some? ==> u.events == Elements(dto.events.value))
      && TitlesDistinct(rows[compId := u]) && IdsConsistent(rows[compId := u], nextId)
  {
    var u := Updated(rows, eventCount, compId, dto).value;
    ResolveEventsCases(eventCount, dto.events);
    if dto.events.Some? && dto.events.value == [] {
      assert Elements(dto.events.value) == {};
    }
    var r := rows[compId := u];
    forall a, b | a in r && b in r && a != b
      ensures r[a].title != r[b].title
    {
      if a == compId {
        assert !(b in rows && b != compId && rows[b].title == u.title);
      } else if b == compId {
        assert !(a in rows && a != compId && rows[a].title == u.title);
      }
    }
  }

  /** An update with every field null leaves the compilation as it was: its
      own title never counts as taken. */
  lemma EmptyUpdateKeepsCompilation(rows: map<int, Compilation>, eventCount: int, compId: int)
    requires TitlesDistinct(rows) && compId in rows
    ensures Updated(rows, eventCount, compId, UpdateCompilationRequest(None, None, None)) == Ok(rows[compId])
  {
    var c := rows[compId];
    assert !TitleTaken(rows, c.title, compId);
  }

  /** toDtoWithShorts: each event of the compilation as a short view with no
      confirmed requests and no views. */
  function ToDto(events: seq<Event>, c: Compilation): (d: CompilationDto)
    ensures d.id == c.id && d.title == c.title && d.pinned == c.pinned
    ensures forall s :: s in d.events ==> s.confirmedRequests == 0 && s.views == 0
    ensures forall id :: id in c.events && 1 <= id <= |events| ==> ToShortDto(events[id - 1], 0, 0) in d.events
    ensures forall s :: s in d.events ==>
      exists id :: id in c.events && 1 <= id <= |events| && s == ToShortDto(events[id - 1], 0, 0)
    ensures c.events == {} ==> d.events == {}
  {
    CompilationDto(c.id, c.title, c.pinned,
                   set id | id in c.events && 1 <= id <= |events| :: ToShortDto(events[id - 1], 0, 0))
  }

  /** The compilations with an id below `n`, by id, optionally only the
      pinned or the unpinned ones. */
  function Listing(rows: map<int, Compilation>, pinned: Option<bool>, n: nat): (r: seq<Compilation>)
    ensures forall c :: c in r ==> c in rows.Values && (pinned.Some? ==> c.pinned == pinned.value)
  {
    if n <= 1 then []
    else
      var before := Listing(rows, pinned, n - 1);
      if n - 1 in rows && (pinned.None? || rows[n - 1].pinned == pinned.value) then before + [rows[n - 1]]
      else before
  }

  /** getAll: the page asked for of the (pinned or unpinned, or all)
      compilations. */
  function AllCompilations(events: seq<Event>, rows: map<int, Compilation>, nextId: nat, pinned: Option<bool>,
                           from: int, size: int): (r: Result<seq<CompilationDto>>)
    ensures r.Ok? ==> |r.value| <= size
    ensures r.Ok? ==> forall d :: d in r.value ==>
      exists c :: c in rows.Values && (pinned.Some? ==> c.pinned == pinned.value) && d == ToDto(events, c)
  {
    match ByUnsorted(from, size)
    case Err(kind) => Err(kind)
    case Ok(page) =>
      var content := Content(Listing(rows, pinned, nextId), page);
      var dtos := seq(|content|, k requires 0 <= k < |content| => ToDto(events, content[k]));
      assert forall d :: d in dtos ==> exists k :: 0 <= k < |content| && d == ToDto(events, content[k]);
      PageMembers(Listing(rows, pinned, nextId), page);
      Ok(dtos)
  }

  // ---------------------------------------------------------------------
  // The table and the service
  // ---------------------------------------------------------------------

  class CompilationRepository {
    var rows: map<int, Compilation>
    var nextId: nat

    ghost predicate Valid()
      reads this
    {
      TitlesDistinct(rows) && IdsConsistent(rows, nextId) && nextId >= 1
    }

    constructor ()
      ensures Valid() && rows == map[] && nextId == 1
    {
      rows := map[];
      nextId := 1;
    }
  }

  class CompilationServiceImpl {
    const compilationRepository: CompilationRepository
    const eventRepository: EventRepository

    constructor (compilations: CompilationRepository, events: EventRepository)
      ensures compilationRepository == compilations && eventRepository == events
    {
      compilationRepository := compilations;
      eventRepository := events;
    }

    /** create. */
    method Create(dto: NewCompilationDto) returns (result: Result<CompilationDto>)
      requires compilationRepository.Valid()
      modifies compilationRepository
      ensures compilationRepository.Valid()
      ensures var spec := Creation(old(compilationRepository.rows), old(compilationRepository.nextId),
                                   |eventRepository.rows|, dto);
        (spec.Err? ==> result == Err(spec.error) && unchanged(compilationRepository))
        && (spec.Ok? ==> result == Ok(ToDto(eventRepository.rows, spec.value))
                         && compilationRepository.rows == old(compilationRepository.rows)[spec.value.id := spec.value]
                         && compilationRepository.nextId == old(compilationRepository.nextId) + 1)
    {
      var spec := Creation(compilationRepository.rows, compilationRepository.nextId, |eventRepository.rows|, dto);
      if spec.Err? {
        return Err(spec.error);
      }
      CreationKeepsTable(compilationRepository.rows, compilationRepository.nextId, |eventRepository.rows|, dto);
      compilationRepository.rows := compilationRepository.rows[spec.value.id := spec.value];
      compilationRepository.nextId := compilationRepository.nextId + 1;
      result := Ok(ToDto(eventRepository.rows, spec.value));
    }

    /** delete. */
    method Delete(compId: int) returns (outcome: Outcome)
      requires compilationRepository.Valid()
      modifies compilationRepository
      ensures compilationRepository.Valid()
      ensures var spec := DeleteExisting(old(compilationRepository.rows), compId);
        (spec.Err? ==> outcome == Fail(spec.error) && unchanged(compilationRepository))
        && (spec.Ok? ==> outcome == Pass && compilationRepository.rows == spec.value
                         && compilationRepository.nextId == old(compilationRepository.nextId))
    {
      if compId !in compilationRepository.rows {
        return Fail(NotFound);
      }
      compilationRepository.rows := compilationRepository.rows - {compId};
      outcome := Pass;
    }

    /** update. */
    method Update(compId: int, dto: UpdateCompilationRequest) returns (result: Result<CompilationDto>)
      requires compilationRepository.Valid()
      modifies compilationRepository
      ensures compilationRepository.Valid()
      ensures var spec := Updated(old(compilationRepository.rows), |eventRepository.rows|, compId, dto);
        (spec.Err? ==> result == Err(spec.error) && unchanged(compilationRepository))
        && (spec.Ok? ==> result == Ok(ToDto(eventRepository.rows, spec.value))
                         && compilationRepository.rows == old(compilationRepository.rows)[compId := spec.value]
                         && compilationRepository.nextId == old(compilationRepository.nextId))
    {
      var spec := Updated(compilationRepository.rows, |eventRepository.rows|, compId, dto);
      if spec.Err? {
        return Err(spec.error);
      }
      UpdateKeepsTable(compilationRepository.rows, compilationRepository.nextId, |eventRepository.rows|, compId, dto);
      compilationRepository.rows := compilationRepository.rows[compId := spec.value];
      result := Ok(ToDto(eventRepository.rows, spec.value));
    }

    /** getById. */
    method GetById(compId: int) returns (result: Result<CompilationDto>)
      ensures compId !in compilationRepository.rows <==> result == Err(NotFound)
      ensures result.Ok? ==> result.value == ToDto(eventRepository.rows, compilationRepository.rows[compId])
    {
      if compId !in compilationRepository.rows {
        return Err(NotFound);
      }
      result := Ok(ToDto(eventRepository.rows, compilationRepository.rows[compId]));
    }

    /** getAll: at most a page of views of stored compilations, only the
        pinned or only the unpinned ones when asked. */
    method GetAll(pinned: Option<bool>, from: int, size: int) returns (result: Result<seq<CompilationDto>>)
      ensures result == AllCompilations(eventRepository.rows, compilationRepository.rows, compilationRepository.nextId,
                                        pinned, from, size)
      ensures result.Ok? ==> |result.value| <= size
      ensures result.Ok? ==> forall d :: d in result.value ==>
        exists c :: c in compilationRepository.rows.Values && (pinned.Some? ==> c.pinned == pinned.value)
                    && d == ToDto(eventRepository.rows, c)
    {
      result := AllCompilations(eventRepository.rows, compilationRepository.rows, compilationRepository.nextId,
                                pinned, from, size);
    }
  }
}
