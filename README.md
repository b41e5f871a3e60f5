# Explore With Me — a Dafny model of the event-registration core

Explore With Me is an event-registration platform. Users publish events;
administrators moderate them. Other users ask to take part, and an event's
initiator confirms or rejects those requests within the event's participant
limit. Events are grouped into categories and compilations and carry
comments. A separate statistics server records every hit on a public
endpoint and reports view counts.

This project models that core in Dafny:

- the participation-request allocator: admission, cancellation, and batch
  confirmation or rejection with the limit cascade;
- the event lifecycle state machine (PENDING, PUBLISHED, CANCELED), with the
  owner's and the administrator's edits and their lead-time guards;
- the partial-update mapper and the search filters of the event table;
- the rule sets of comments, categories and compilations;
- the page arithmetic and the fixed `yyyy-MM-dd HH:mm:ss` date format;
- the client-address, range and sort rules of the public events controller;
- the error-to-HTTP-status table;
- the statistics server's hit table and its aggregation queries.

Modelling choices:

- Each record is a `datatype`.
- Requests and events are never deleted, so each table is a `seq` whose row
  ids equal their positions plus one.
- Categories, comments and compilations are deleted, so each is a `map`
  from id to row, with the next id kept beside it.
- Each service is a `class` that holds references to the tables it reads.
  Its methods name the tables they change in `modifies`.
- Each method is proved against a pure function of the tables. That
  function gives the service's answer (or the exception it throws, as a
  `Result`) and the new table contents. Lemmas about these functions carry
  the promises: capacity, the lifecycle, the cascade, unique names.
- Service methods are transactional. Every error leaves the tables as they
  were.
- The clock is a parameter `now`, in whole seconds.
- The statistics client's answer is a parameter: `None` when the call failed,
  otherwise the hit count per URI.

Modules, one per file:

| file | module | models |
|---|---|---|
| common.dfy | Common | `Result`/`Option`, error kinds, trimming, case mapping, `findAllById` counting |
| sorting.dfy | Sorting | a descending sort used for ORDER BY ... DESC and for sorting by views |
| page_utils.dfy | PageUtils | `PageUtils.by` and the slice of a result list a page holds |
| date_time_mapper.dfy | DateTimeMapper | `format`/`parse` with `yyyy-MM-dd HH:mm:ss` |
| global_exception_handler.dfy | GlobalExceptionHandler | exception → `ApiError` |
| event.dfy | Events | the event record and its table |
| participation_request.dfy | Requests | the request record and `ParticipationRequestRepository` |
| user_repository.dfy | Users | the set of user ids |
| event_mapper.dfy | EventMapper | `EventMapper` |
| event_search.dfy | EventSearch | the two search queries of `EventRepository` |
| request_service.dfy | RequestService | `RequestServiceImpl` |
| event_service.dfy | EventService | `EventServiceImpl` |
| category_service.dfy | Categories | `CategoryServiceImpl` |
| comment_service.dfy | Comments | `CommentServiceImpl` |
| compilation_service.dfy | Compilations | `CompilationServiceImpl` |
| public_events_controller.dfy | PublicEvents | `clientIp`, the range check and the sort rule of `PublicEventsController` |
| stats_server.dfy | Stats | `StatsService` and `EndpointHitRepository` |

## Model

| member | source | states |
|---|---|---|
| Common.Trim | ewm-main-service/src/main/java/ru/practicum/ewm/main/controller/public_/PublicEventsController.java:25 | the text is an all-blank prefix, then the result, then an all-blank suffix; the result has no blank at either end and is empty exactly when the text is all blanks |
| Common.IndexOf | ewm-main-service/src/main/java/ru/practicum/ewm/main/controller/public_/PublicEventsController.java:24 | -1 exactly when the character is absent; otherwise the position of its first occurrence |
| Common.DistinctPresent | ewm-main-service/src/main/java/ru/practicum/ewm/main/service/impl/CompilationServiceImpl.java:84 | the distinct ids among the requested ones that name a stored row, never more than were requested |
| Common.DistinctPresentAll | ewm-main-service/src/main/java/ru/practicum/ewm/main/service/impl/CompilationServiceImpl.java:84-87 | as many rows are found as ids were requested exactly when every id names a row and no id repeats |
| Common.FindById | ewm-main-service/src/main/java/ru/practicum/ewm/main/repository/ParticipationRequestRepository.java:14 | findById finds exactly the stored ids, and finds the row with that id |
| Sorting.SortDesc | ewm-stats-server/src/main/java/ru/practicum/stats/server/repo/EndpointHitRepository.java:18 | the sorted list is a permutation of its input |
| Sorting.SortDescSorted | ewm-stats-server/src/main/java/ru/practicum/stats/server/repo/EndpointHitRepository.java:18 | the sorted list is in descending order of the key |
| PageUtils.JavaDiv | ewm-main-service/src/main/java/ru/practicum/ewm/main/util/PageUtils.java:17 | Java's int division truncates toward zero, also for a negative offset |
| PageUtils.By | ewm-main-service/src/main/java/ru/practicum/ewm/main/util/PageUtils.java:15-19 | a size of zero or less is an IllegalArgumentException; otherwise the page is `from / size` with the size and sort given, and an offset more than one page below zero makes a negative page, which PageRequest refuses |
| PageUtils.ByUnsorted | ewm-main-service/src/main/java/ru/practicum/ewm/main/util/PageUtils.java:11-13 | the two-argument form is the three-argument form with the unsorted order |
| PageUtils.Content | ewm-main-service/src/main/java/ru/practicum/ewm/main/util/PageUtils.java:17 | a page holds at most `size` items: those of the list from the page's offset on, and none past the end |
| PageUtils.PageContainsOffset | ewm-main-service/src/main/java/ru/practicum/ewm/main/util/PageUtils.java:17 | for a non-negative offset the page starts at or before the offset and ends after it; it starts exactly at the offset when the offset is a multiple of the size |
| PageUtils.SmallOffsetIsFirstPage | ewm-main-service/src/main/java/ru/practicum/ewm/main/util/PageUtils.java:17 | an offset below one page is page 0 |
| PageUtils.NegativeOffsetTruncates | ewm-main-service/src/main/java/ru/practicum/ewm/main/util/PageUtils.java:17 | -5 with size 10 is page 0, -10 with size 10 is refused |
| DateTimeMapper.Format | ewm-main-service/src/main/java/ru/practicum/ewm/main/mapper/util/DateTimeMapper.java:14-17 | the text has the 19 characters of `yyyy-MM-dd HH:mm:ss` and the shape the parser accepts |
| DateTimeMapper.FormatNullable | ewm-main-service/src/main/java/ru/practicum/ewm/main/mapper/util/DateTimeMapper.java:16 | null formats as null |
| DateTimeMapper.Parse | ewm-main-service/src/main/java/ru/practicum/ewm/main/mapper/util/DateTimeMapper.java:19-22 | only text of the fixed shape parses, and only to a valid date-time without fractions of a second |
| DateTimeMapper.ParseNullable | ewm-main-service/src/main/java/ru/practicum/ewm/main/mapper/util/DateTimeMapper.java:21 | null parses as null; text that does not parse is a DateTimeParseException |
| DateTimeMapper.ParseFormat | ewm-main-service/src/test/java/ru/practicum/ewm/main/mapper/EventMapperSpringTest.java:131 | parsing a formatted date-time gives it back truncated to whole seconds |
| DateTimeMapper.FormatParse | ewm-main-service/src/main/java/ru/practicum/ewm/main/mapper/util/DateTimeMapper.java:19-22 | formatting a parsed text whose day exists in its month gives the text back |
| DateTimeMapper.ParseClampsDay | ewm-main-service/src/main/java/ru/practicum/ewm/main/mapper/util/DateTimeMapper.java:12 | "2023-02-30 10:00:00" parses as the 28th of February, as the SMART resolver does |
| DateTimeMapper.ParseClampsDayLeapYear | ewm-main-service/src/main/java/ru/practicum/ewm/main/mapper/util/DateTimeMapper.java:12 | "2024-02-30 10:00:00" parses as the 29th of February |
| DateTimeMapper.ParseRejectsDay32 | ewm-main-service/src/main/java/ru/practicum/ewm/main/mapper/util/DateTimeMapper.java:12 | a day of 32 does not parse |
| DateTimeMapper.ParseRejectsYearZero | ewm-main-service/src/main/java/ru/practicum/ewm/main/mapper/util/DateTimeMapper.java:12 | year 0000 does not parse (the pattern's `yyyy` is year of era) |
| DateTimeMapper.IsBeforeStrictTotal | ewm-main-service/src/main/java/ru/practicum/ewm/main/controller/public_/PublicEventsController.java:48 | `isBefore` is irreflexive and transitive, and of two different date-times exactly one is before the other |
| GlobalExceptionHandler.JoinFieldErrors | ewm-main-service/src/main/java/ru/practicum/ewm/main/exception/GlobalExceptionHandler.java:69-75 | empty exactly for no field errors; starts with the first field error's description; one error gives just its description |
| GlobalExceptionHandler.Handle | ewm-main-service/src/main/java/ru/practicum/ewm/main/exception/GlobalExceptionHandler.java:27-126 | status, reason, timestamp and message per handler; only the catch-all handler lists the exception class in `errors` |
| GlobalExceptionHandler.ExceptionOf | ewm-main-service/src/main/java/ru/practicum/ewm/main/exception/GlobalExceptionHandler.java:116-126 | a DateTimeParseException or ArithmeticException is none of the handled classes and falls to the 500 handler |
| GlobalExceptionHandler.StatusOfCoreErrors | ewm-main-service/src/main/java/ru/practicum/ewm/main/exception/GlobalExceptionHandler.java:27-126 | NotFound → 404, Conflict and integrity violations → 409, BadRequest and IllegalArgument → 400, date parse and arithmetic errors → 500 |
| GlobalExceptionHandler.ValidationMessage | ewm-main-service/src/main/java/ru/practicum/ewm/main/exception/GlobalExceptionHandler.java:69-75 | the validation message is the joined field errors, or the exception's message when there are none |
| GlobalExceptionHandler.IntegrityMessage | ewm-main-service/src/main/java/ru/practicum/ewm/main/exception/GlobalExceptionHandler.java:102-113 | an integrity violation reports the message of its most specific cause (the exception itself when it has no cause), null included, with the integrity reason; the exception's own message plays no part |
| Events.CountByCategory | ewm-main-service/src/main/java/ru/practicum/ewm/main/repository/EventRepository.java:19 | zero exactly when no event uses the category |
| Events.EventRepository.Insert | ewm-main-service/src/main/java/ru/practicum/ewm/main/repository/EventRepository.java:15 | the saved event takes the next id and is appended; nothing else changes |
| Events.EventRepository.Update | ewm-main-service/src/main/java/ru/practicum/ewm/main/repository/EventRepository.java:15 | the row with the event's id is replaced; nothing else changes |
| EventMapper.StateValueOf | ewm-main-service/src/main/java/ru/practicum/ewm/main/mapper/EventMapper.java:44 | a state name read back names that state |
| EventMapper.StateNameRoundTrip | ewm-main-service/src/main/java/ru/practicum/ewm/main/mapper/EventMapper.java:44 | every state's name reads back as the state |
| EventMapper.ToShortDto | ewm-main-service/src/main/java/ru/practicum/ewm/main/mapper/EventMapper.java:19-28 | confirmed requests and views are the arguments, unchanged |
| EventMapper.ToFullDto | ewm-main-service/src/main/java/ru/practicum/ewm/main/mapper/EventMapper.java:31-47 | counts are the arguments, unchanged; state is the state's name, or null for no state |
| EventMapper.ShortIsPartOfFull | ewm-main-service/src/main/java/ru/practicum/ewm/main/mapper/EventMapper.java:19-47 | the short view is the full view with the full-only fields dropped |
| EventMapper.FromNew | ewm-main-service/src/main/java/ru/practicum/ewm/main/mapper/EventMapper.java:50-59 | id, createdOn, publishedOn and state are unset; category, initiator and location are the given ones; an unparseable date throws |
| EventMapper.UpdateFromUser | ewm-main-service/src/main/java/ru/practicum/ewm/main/mapper/EventMapper.java:62-72 | only the seven mapped fields change, each only when the request gives it; state, category, location, initiator, createdOn, publishedOn stay |
| EventMapper.UpdateFromAdmin | ewm-main-service/src/main/java/ru/practicum/ewm/main/mapper/EventMapper.java:75-83 | an unparseable date is a parse error; otherwise the same null-skipping patch of the same fields as the user update |
| EventMapper.PatchDetermined | ewm-main-service/src/main/java/ru/practicum/ewm/main/mapper/EventMapper.java:62-83 | the partial-update description fixes the result uniquely |
| EventMapper.AdminPatchesLikeUser | ewm-main-service/src/main/java/ru/practicum/ewm/main/mapper/EventMapper.java:75-83 | given the same fields, the admin and the user update give the same event |
| EventMapper.UpdateFromUserIdempotent | ewm-main-service/src/main/java/ru/practicum/ewm/main/mapper/EventMapper.java:62-72 | applying the same partial update twice is applying it once |
| EventMapper.EmptyUserUpdate | ewm-main-service/src/main/java/ru/practicum/ewm/main/mapper/EventMapper.java:62 | an all-null update changes nothing |
| EventSearch.LikePrefix | ewm-main-service/src/main/java/ru/practicum/ewm/main/repository/EventRepository.java:43-45 | a LIKE pattern `t%` with no wildcards in t matches exactly the texts starting with t |
| EventSearch.LikeContains | ewm-main-service/src/main/java/ru/practicum/ewm/main/repository/EventRepository.java:43-45 | `%t%` matches exactly the texts containing t |
| EventSearch.SearchPattern | ewm-main-service/src/main/java/ru/practicum/ewm/main/service/impl/EventServiceImpl.java:249 | no pattern for a null or blank text, otherwise `%` + lower-cased text + `%` |
| EventSearch.SearchPublic | ewm-main-service/src/main/java/ru/practicum/ewm/main/repository/EventRepository.java:38-57 | exactly the stored events passing the public filter, all of them PUBLISHED |
| EventSearch.TextSearchIsContains | ewm-main-service/src/main/java/ru/practicum/ewm/main/repository/EventRepository.java:40-48 | a public match is a published event whose lower-cased annotation, description or title contains the lower-cased text, within the category and paid filters |
| EventSearch.SearchAdmin | ewm-main-service/src/main/java/ru/practicum/ewm/main/repository/EventRepository.java:22-35 | exactly the stored events passing the admin filter |
| EventSearch.AdminNoFilter | ewm-main-service/src/main/java/ru/practicum/ewm/main/repository/EventRepository.java:24-28 | with no users, states, categories or bounds every event is returned |
| EventSearch.RangeInclusive | ewm-main-service/src/main/java/ru/practicum/ewm/main/repository/EventRepository.java:27-28 | both bounds are inclusive, and a bound one second off excludes the date |
| Requests.ByEvent | ewm-main-service/src/main/java/ru/practicum/ewm/main/repository/ParticipationRequestRepository.java:18 | exactly the requests of the event |
| Requests.ByRequester | ewm-main-service/src/main/java/ru/practicum/ewm/main/repository/ParticipationRequestRepository.java:16 | exactly the requests of the requester |
| Requests.FindAllById | ewm-main-service/src/main/java/ru/practicum/ewm/main/service/impl/RequestServiceImpl.java:141 | one row per distinct requested id that exists, each the row with that id; unknown ids are dropped |
| Requests.CountAppend | ewm-main-service/src/main/java/ru/practicum/ewm/main/repository/ParticipationRequestRepository.java:22 | an appended request adds one to its own (event, status) count only |
| Requests.CountUpdate | ewm-main-service/src/main/java/ru/practicum/ewm/main/repository/ParticipationRequestRepository.java:22 | replacing one request moves at most one unit between counts |
| Requests.CountOverwrite | ewm-main-service/src/main/java/ru/practicum/ewm/main/service/impl/RequestServiceImpl.java:175 | saving k requests raises a count by at most k |
| Requests.CountOverwriteOther | ewm-main-service/src/main/java/ru/practicum/ewm/main/service/impl/RequestServiceImpl.java:175 | saving requests none of which has status s never raises the count of s |
| Requests.RejectPendingCounts | ewm-main-service/src/main/java/ru/practicum/ewm/main/repository/ParticipationRequestRepository.java:26-33 | after the bulk reject the event has no PENDING request, its REJECTED count grew by its former PENDING count, and no CONFIRMED count changed, so a second call changes nothing |
| Requests.RejectPendingFrame | ewm-main-service/src/main/java/ru/practicum/ewm/main/repository/ParticipationRequestRepository.java:30-31 | requests of other events and non-pending requests are unchanged, and the bulk reject is idempotent |
| Requests.RejectPending | ewm-main-service/src/main/java/ru/practicum/ewm/main/repository/ParticipationRequestRepository.java:26-33 | the table keeps its size; RejectPendingCounts and RejectPendingFrame give its effect |
| Requests.FindAllByIdRows | ewm-main-service/src/main/java/ru/practicum/ewm/main/service/impl/RequestServiceImpl.java:141 | every request found is a stored row named by a requested id, and none is found twice |
| Requests.FindAllByIdComplete | ewm-main-service/src/main/java/ru/practicum/ewm/main/service/impl/RequestServiceImpl.java:141 | every requested id that exists is found |
| Requests.OverwriteContents | ewm-main-service/src/main/java/ru/practicum/ewm/main/service/impl/RequestServiceImpl.java:175 | after saveAll each saved request is stored under its id and every other row is unchanged |
| Requests.Overwrite | ewm-main-service/src/main/java/ru/practicum/ewm/main/service/impl/RequestServiceImpl.java:175 | the table keeps its size; OverwriteContents gives its effect |
| Requests.AppendKeepsWellFormed | ewm-main-service/src/main/java/ru/practicum/ewm/main/model/ParticipationRequest.java:10-11 | appending a request for a new (event, requester) pair under the next id keeps ids equal to positions and pairs unique |
| Requests.PutKeepsWellFormed | ewm-main-service/src/main/java/ru/practicum/ewm/main/model/ParticipationRequest.java:10-11 | changing only the status of a stored request keeps the table well formed |
| Requests.ParticipationRequestRepository.Insert | ewm-main-service/src/main/java/ru/practicum/ewm/main/model/ParticipationRequest.java:11 | a duplicate (requester, event) pair violates the unique constraint and saves nothing; otherwise the request is appended under the next id |
| Requests.ParticipationRequestRepository.Save | ewm-main-service/src/main/java/ru/practicum/ewm/main/service/impl/RequestServiceImpl.java:96 | the row with the request's id is replaced |
| Requests.ParticipationRequestRepository.SaveAll | ewm-main-service/src/main/java/ru/practicum/ewm/main/service/impl/RequestServiceImpl.java:175 | each listed request overwrites its row |
| Requests.ParticipationRequestRepository.RejectAllPendingByEventId | ewm-main-service/src/main/java/ru/practicum/ewm/main/repository/ParticipationRequestRepository.java:26-33 | the table becomes the bulk-rejected table and the result is the number of PENDING requests the event had |
| RequestService.InitialStatus | ewm-main-service/src/main/java/ru/practicum/ewm/main/service/impl/RequestServiceImpl.java:70-73 | CONFIRMED iff moderation is off or the limit is 0, PENDING otherwise |
| RequestService.Admission | ewm-main-service/src/main/java/ru/practicum/ewm/main/service/impl/RequestServiceImpl.java:47-84 | only NotFound or Conflict; an accepted request takes the next id, is created now for that user and event, and its pair was not yet present; AdmissionCases gives every case |
| RequestService.AdmissionCases | ewm-main-service/src/main/java/ru/practicum/ewm/main/service/impl/RequestServiceImpl.java:45-84 | NotFound for an unknown user or event; Conflict for the initiator, an unpublished event, a repeated pair or a full event; otherwise a new request under the next id with the initial status |
| RequestService.AdmissionWithinLimit | ewm-main-service/src/main/java/ru/practicum/ewm/main/service/impl/RequestServiceImpl.java:63-68 | an accepted request never takes its event past a positive limit |
| RequestService.AdmissionKeepsCapacity | ewm-main-service/src/main/java/ru/practicum/ewm/main/service/impl/RequestServiceImpl.java:63-68 | admission preserves "no event has more confirmed requests than its positive limit" |
| RequestService.AdmissionKeepsWellFormed | ewm-main-service/src/main/java/ru/practicum/ewm/main/model/ParticipationRequest.java:11 | admission keeps one request per (event, requester) pair and ids equal to positions |
| RequestService.Cancellation | ewm-main-service/src/main/java/ru/practicum/ewm/main/service/impl/RequestServiceImpl.java:88-99 | only NotFound; a cancelled request is an existing one of that user, now CANCELED; CancellationCases gives every case |
| RequestService.CancellationCases | ewm-main-service/src/main/java/ru/practicum/ewm/main/service/impl/RequestServiceImpl.java:86-99 | only the requester may cancel (else NotFound), whatever the prior status; the result is the same request, CANCELED |
| RequestService.CancellationFreesPlace | ewm-main-service/src/main/java/ru/practicum/ewm/main/service/impl/RequestServiceImpl.java:96 | no confirmed count grows, and cancelling a confirmed request frees exactly one place of its event |
| RequestService.CancellationKeepsCapacity | ewm-main-service/src/main/java/ru/practicum/ewm/main/service/impl/RequestServiceImpl.java:96 | cancellation preserves the capacity invariant |
| RequestService.Screen | ewm-main-service/src/main/java/ru/practicum/ewm/main/service/impl/RequestServiceImpl.java:117-139 | the order of refusals: unknown or foreign event, then moderation off or limit 0, then empty ids, then the status token |
| RequestService.Resolution | ewm-main-service/src/main/java/ru/practicum/ewm/main/service/impl/RequestServiceImpl.java:115-180 | only NotFound, Conflict or BadRequest; on success a table of the same size; the lemmas below give its cases |
| RequestService.Apply | ewm-main-service/src/main/java/ru/practicum/ewm/main/service/impl/RequestServiceImpl.java:141-175 | only Conflict, and only for a non-pending target or when confirming; on success a table of the same size |
| RequestService.ResolutionRefusals | ewm-main-service/src/main/java/ru/practicum/ewm/main/service/impl/RequestServiceImpl.java:117-139 | NotFound for an unknown or foreign event; Conflict without moderation or limit even for an empty list; an empty list returns two empty lists and saves nothing; an unknown token is BadRequest |
| RequestService.ResolutionOnlyPending | ewm-main-service/src/main/java/ru/practicum/ewm/main/service/impl/RequestServiceImpl.java:144-146 | any targeted request that is not PENDING makes the call a Conflict, for either status |
| RequestService.ResolutionConfirmLimit | ewm-main-service/src/main/java/ru/practicum/ewm/main/service/impl/RequestServiceImpl.java:148-162 | confirming fails exactly when a positive limit would be passed by the requests found |
| RequestService.ApplyWithinLimit | ewm-main-service/src/main/java/ru/practicum/ewm/main/service/impl/RequestServiceImpl.java:148-175 | confirming or rejecting found requests keeps the event within its positive limit |
| RequestService.ResolutionWithinLimit | ewm-main-service/src/main/java/ru/practicum/ewm/main/service/impl/RequestServiceImpl.java:113-181 | a successful update never takes the event past its positive limit |
| RequestService.ApplyConfirms | ewm-main-service/src/main/java/ru/practicum/ewm/main/service/impl/RequestServiceImpl.java:148-166 | each found request is stored and reported CONFIRMED, none is reported rejected, and once the limit is reached no request of the event is left PENDING |
| RequestService.ApplyConfirmsFrame | ewm-main-service/src/main/java/ru/practicum/ewm/main/service/impl/RequestServiceImpl.java:148-166 | outside the found requests, once the limit is reached every PENDING request of the event becomes REJECTED and every other row is unchanged; below the limit every row is unchanged |
| RequestService.ResolutionConfirms | ewm-main-service/src/main/java/ru/practicum/ewm/main/service/impl/RequestServiceImpl.java:115-180 | the same cascade and frame for the whole confirm call; the rejected list stays empty even when the cascade rejected requests |
| RequestService.ApplyRejects | ewm-main-service/src/main/java/ru/practicum/ewm/main/service/impl/RequestServiceImpl.java:167-172 | each found request is stored and reported REJECTED, none confirmed, and no other row changes (no cascade) |
| RequestService.ResolutionRejects | ewm-main-service/src/main/java/ru/practicum/ewm/main/service/impl/RequestServiceImpl.java:167-172 | the same for the whole reject call |
| RequestService.ResolutionMayOverfillAnotherEvent | ewm-main-service/src/main/java/ru/practicum/ewm/main/service/impl/RequestServiceImpl.java:141 | the found requests are not checked to belong to the event: confirming a pending request of another event can take that event past its own limit |
| RequestService.ConfirmIgnoresCase | ewm-main-service/src/main/java/ru/practicum/ewm/main/service/impl/RequestServiceImpl.java:136-139 | the status token is matched ignoring case |
| RequestService.ConfirmEach | ewm-main-service/src/main/java/ru/practicum/ewm/main/service/impl/RequestServiceImpl.java:155-162 | the in-order loop succeeds exactly when a positive limit is not passed, and then confirms every request |
| RequestService.RejectEach | ewm-main-service/src/main/java/ru/practicum/ewm/main/service/impl/RequestServiceImpl.java:168-171 | every request, in order, REJECTED |
| RequestService.RequestServiceImpl.GetUserRequests | ewm-main-service/src/main/java/ru/practicum/ewm/main/service/impl/RequestServiceImpl.java:36-43 | NotFound for an unknown user; otherwise exactly that user's requests |
| RequestService.RequestServiceImpl.GetEventRequests | ewm-main-service/src/main/java/ru/practicum/ewm/main/service/impl/RequestServiceImpl.java:101-111 | NotFound for an unknown event or a non-initiator; otherwise exactly the event's requests |
| RequestService.RequestServiceImpl.AddRequest | ewm-main-service/src/main/java/ru/practicum/ewm/main/service/impl/RequestServiceImpl.java:45-84 | returns the admission result; appends the request on success and changes nothing on an error |
| RequestService.RequestServiceImpl.CancelRequest | ewm-main-service/src/main/java/ru/practicum/ewm/main/service/impl/RequestServiceImpl.java:86-99 | returns the cancellation result; saves it on success and changes nothing on an error |
| RequestService.RequestServiceImpl.UpdateEventRequests | ewm-main-service/src/main/java/ru/practicum/ewm/main/service/impl/RequestServiceImpl.java:113-181 | returns the resolution result and leaves the resolved table; an error leaves the table unchanged |
| RequestService.RequestServiceImpl.ApplyTo | ewm-main-service/src/main/java/ru/practicum/ewm/main/service/impl/RequestServiceImpl.java:148-175 | runs the confirm or reject loop, the cascade and saveAll as the resolution specifies |
| EventService.IntToStringInjective | ewm-main-service/src/main/java/ru/practicum/ewm/main/service/impl/EventServiceImpl.java:343-345 | different event ids print differently |
| EventService.EventUriInjective | ewm-main-service/src/main/java/ru/practicum/ewm/main/service/impl/EventServiceImpl.java:343-345 | different events have different `/events/{id}` URIs, so a view count belongs to one event |
| EventService.FetchViewsByEventIds | ewm-main-service/src/main/java/ru/practicum/ewm/main/service/impl/EventServiceImpl.java:340-362 | one entry per requested id, the stats count for its URI, 0 when the lookup failed or lacks the URI |
| EventService.AvailableSlotsAgreeWithAdmission | ewm-main-service/src/main/java/ru/practicum/ewm/main/service/impl/EventServiceImpl.java:314-318 | an event has free places exactly when addRequest would not refuse it as full |
| EventService.NewEvent | ewm-main-service/src/main/java/ru/practicum/ewm/main/service/impl/EventServiceImpl.java:48-77 | NotFound for an unknown user or category; a parse error for an unparseable date; BadRequest for a date under two hours ahead; it succeeds exactly otherwise, as PENDING, created now, with paid false, limit 0 and moderation on when not given |
| EventService.UserEditCases | ewm-main-service/src/main/java/ru/practicum/ewm/main/service/impl/EventServiceImpl.java:97-141 | NotFound for an unknown event or another user's; Conflict once PUBLISHED; NotFound for an unknown category; a parse error for an unparseable date; BadRequest for a date under two hours ahead; it succeeds exactly otherwise |
| EventService.UserEdit | ewm-main-service/src/main/java/ru/practicum/ewm/main/service/impl/EventServiceImpl.java:97-141 | errors are NotFound, Conflict, a parse error or BadRequest; an accepted edit keeps the id and the initiator and never publishes |
| EventService.UserEditResult | ewm-main-service/src/main/java/ru/practicum/ewm/main/service/impl/EventServiceImpl.java:125-137 | an accepted edit patches the given fields, places the category and location, and sets the state the action says (SEND_TO_REVIEW → PENDING, CANCEL_REVIEW → CANCELED); never PUBLISHED |
| EventService.UserEditKeepsSaved | ewm-main-service/src/main/java/ru/practicum/ewm/main/service/impl/EventServiceImpl.java:97-141 | an accepted user edit keeps the row a valid stored event |
| EventService.AdminDecisionTransitions | ewm-main-service/src/main/java/ru/practicum/ewm/main/service/impl/EventServiceImpl.java:196-210 | PUBLISH_EVENT publishes a PENDING event at least an hour ahead, stamping publishedOn, and is Conflict for any other state or a nearer date; REJECT_EVENT cancels an unpublished event and is Conflict on a published one; any other action changes nothing |
| EventService.AdminDecision | ewm-main-service/src/main/java/ru/practicum/ewm/main/service/impl/EventServiceImpl.java:196-210 | errors are Conflict; a changed state is PUBLISHED or CANCELED, and a new publication is stamped now |
| EventService.AdminEdit | ewm-main-service/src/main/java/ru/practicum/ewm/main/service/impl/EventServiceImpl.java:166-214 | errors are NotFound, a parse error, BadRequest or Conflict; an accepted edit keeps the id and the initiator |
| EventService.AdminEditCases | ewm-main-service/src/main/java/ru/practicum/ewm/main/service/impl/EventServiceImpl.java:166-214 | NotFound for an unknown event or category; a parse error for an unparseable date; BadRequest for a date under an hour ahead; otherwise Conflict exactly when the action is refused for the patched event |
| EventService.PublishIgnoresCase | ewm-main-service/src/main/java/ru/practicum/ewm/main/service/impl/EventServiceImpl.java:196 | the admin action is matched ignoring case |
| EventService.AdminEditKeepsSaved | ewm-main-service/src/main/java/ru/practicum/ewm/main/service/impl/EventServiceImpl.java:166-214 | an accepted admin edit keeps id, initiator and createdOn; a published event keeps its state and publishedOn; a new publication is stamped now |
| EventService.AdminEditMayBreakCapacity | ewm-main-service/src/main/java/ru/practicum/ewm/main/service/impl/EventServiceImpl.java:166-214 | an accepted admin edit may lower the participant limit below the confirmed requests: a concrete event within its limit is left over it |
| EventService.ParseRange | ewm-main-service/src/main/java/ru/practicum/ewm/main/service/impl/EventServiceImpl.java:155-160 | an unparseable bound is BadRequest; otherwise the bounds given are the parsed ones |
| EventService.StatesOf | ewm-main-service/src/main/java/ru/practicum/ewm/main/service/impl/EventServiceImpl.java:149-151 | no filter for a null or empty list; an unknown state name is an IllegalArgumentException; otherwise the named states |
| EventService.AdminPage | ewm-main-service/src/main/java/ru/practicum/ewm/main/service/impl/EventServiceImpl.java:162 | at most a page of the matching events, in descending id order |
| EventService.AdminSearch | ewm-main-service/src/main/java/ru/practicum/ewm/main/service/impl/EventServiceImpl.java:145-164 | errors are IllegalArgument or BadRequest, and a size of zero or less is refused; AdminSearchResult gives the result |
| EventService.AdminSearchResult | ewm-main-service/src/main/java/ru/practicum/ewm/main/service/impl/EventServiceImpl.java:145-164 | at most a page of full views of events passing the admin filter, by descending id |
| EventService.FullViewsOfAdminPage | ewm-main-service/src/main/java/ru/practicum/ewm/main/service/impl/EventServiceImpl.java:163 | enriching a filtered page gives only full views of events that pass the filter, in the page's descending id order |
| EventService.PublicFilterOf | ewm-main-service/src/main/java/ru/practicum/ewm/main/service/impl/EventServiceImpl.java:230-246 | BadRequest exactly for an unparseable bound or an end before the start; otherwise the filter carries the search pattern, the paid flag, the categories (none when null or empty) and the parsed bounds, with now as the lower bound when neither is given |
| EventService.InvertedRangeRefused | ewm-main-service/src/main/java/ru/practicum/ewm/main/service/impl/EventServiceImpl.java:243-246 | an end before the start is BadRequest |
| EventService.PublicPage | ewm-main-service/src/main/java/ru/practicum/ewm/main/service/impl/EventServiceImpl.java:259 | at most a page of events passing the public filter |
| EventService.PublicSearch | ewm-main-service/src/main/java/ru/practicum/ewm/main/service/impl/EventServiceImpl.java:218-283 | errors are IllegalArgument or BadRequest, a size of zero or less is refused, and at most a page is returned; PublicSearchResult gives the rest |
| EventService.Available | ewm-main-service/src/main/java/ru/practicum/ewm/main/service/impl/EventServiceImpl.java:273-275 | exactly the events with free places |
| EventService.ShortViewsOfPublicPage | ewm-main-service/src/main/java/ru/practicum/ewm/main/service/impl/EventServiceImpl.java:272-278 | every short view built from the kept page describes an event that passed the public filter, and has a free place when only available events were asked for |
| EventService.PublicSearchResult | ewm-main-service/src/main/java/ru/practicum/ewm/main/service/impl/EventServiceImpl.java:218-283 | at most a page of short views of matching events, only ones with free places when asked, most viewed first when sorting by views |
| EventService.ByInitiator | ewm-main-service/src/main/java/ru/practicum/ewm/main/service/impl/EventServiceImpl.java:79-85 | exactly the user's events |
| EventService.EventServiceImpl.ViewsOfEvent | ewm-main-service/src/main/java/ru/practicum/ewm/main/service/impl/EventServiceImpl.java:340-362 | the stats count of the event's URI, 0 when missing |
| EventService.EventServiceImpl.EnrichShort | ewm-main-service/src/main/java/ru/practicum/ewm/main/service/impl/EventServiceImpl.java:320-325 | the short views of the events with their confirmed counts and views |
| EventService.EventServiceImpl.CreateEvent | ewm-main-service/src/main/java/ru/practicum/ewm/main/service/impl/EventServiceImpl.java:48-77 | stores the new event under the next id on success, nothing on an error |
| EventService.EventServiceImpl.GetUserEvents | ewm-main-service/src/main/java/ru/practicum/ewm/main/service/impl/EventServiceImpl.java:79-85 | NotFound for an unknown user; otherwise the page of the user's events |
| EventService.EventServiceImpl.GetUserEvent | ewm-main-service/src/main/java/ru/practicum/ewm/main/service/impl/EventServiceImpl.java:87-95 | NotFound unless the event exists and is the user's; otherwise its full view |
| EventService.EventServiceImpl.UpdateUserEvent | ewm-main-service/src/main/java/ru/practicum/ewm/main/service/impl/EventServiceImpl.java:97-141 | stores the user edit on success, nothing on an error |
| EventService.EventServiceImpl.UpdateAdminEvent | ewm-main-service/src/main/java/ru/practicum/ewm/main/service/impl/EventServiceImpl.java:166-214 | stores the admin edit on success, nothing on an error |
| EventService.EventServiceImpl.GetPublicEvent | ewm-main-service/src/main/java/ru/practicum/ewm/main/service/impl/EventServiceImpl.java:285-310 | NotFound unless PUBLISHED; otherwise the full view with one view more than counted before this hit |
| EventService.EventServiceImpl.SearchAdminEvents | ewm-main-service/src/main/java/ru/practicum/ewm/main/service/impl/EventServiceImpl.java:145-164 | at most a page of full views, each of an event passing the admin filter, in descending id order |
| EventService.EventServiceImpl.SearchPublicEvents | ewm-main-service/src/main/java/ru/practicum/ewm/main/service/impl/EventServiceImpl.java:218-283 | the public search result |
| Categories.CreationKeepsNamesDistinct | ewm-main-service/src/main/java/ru/practicum/ewm/main/service/impl/CategoryServiceImpl.java:30-39 | create fails exactly for a taken name; otherwise the new category takes a fresh id and names stay distinct |
| Categories.Creation | ewm-main-service/src/main/java/ru/practicum/ewm/main/service/impl/CategoryServiceImpl.java:30-39 | Conflict exactly for a taken name; the table gains exactly the new id, holding the given name, and every other row is kept |
| Categories.RenamingKeepsNamesDistinct | ewm-main-service/src/main/java/ru/practicum/ewm/main/service/impl/CategoryServiceImpl.java:54-69 | renaming keeps names distinct and fails exactly when another category has the name; its own name is allowed |
| Categories.Renaming | ewm-main-service/src/main/java/ru/practicum/ewm/main/service/impl/CategoryServiceImpl.java:54-69 | NotFound exactly for a missing category, Conflict for a name another category holds; a null name leaves the table as it was; a given name is stored under the same id and every other row is kept |
| Categories.DeletionKeepsEventCategories | ewm-main-service/src/main/java/ru/practicum/ewm/main/service/impl/CategoryServiceImpl.java:41-52 | delete fails exactly while an event uses the category, so every event's category still exists |
| Categories.Deletion | ewm-main-service/src/main/java/ru/practicum/ewm/main/service/impl/CategoryServiceImpl.java:41-52 | NotFound exactly for a missing category, Conflict while an event uses it; on success exactly that category is gone and every other row is kept |
| Categories.CategoryServiceImpl.Create | ewm-main-service/src/main/java/ru/practicum/ewm/main/service/impl/CategoryServiceImpl.java:30-39 | stores Creation's table on success, so the other categories keep their rows; nothing changes on an error |
| Categories.CategoryServiceImpl.Delete | ewm-main-service/src/main/java/ru/practicum/ewm/main/service/impl/CategoryServiceImpl.java:41-52 | stores Deletion's table on success, so the other categories keep their rows; nothing changes on an error |
| Categories.CategoryServiceImpl.Update | ewm-main-service/src/main/java/ru/practicum/ewm/main/service/impl/CategoryServiceImpl.java:54-69 | stores Renaming's table and answers the renamed row, so a null name changes nothing and other rows stay; nothing changes on an error |
| Categories.CategoryServiceImpl.GetById | ewm-main-service/src/main/java/ru/practicum/ewm/main/service/impl/CategoryServiceImpl.java:77-82 | NotFound exactly for a missing id; otherwise the stored category |
| Comments.CheckedText | ewm-main-service/src/main/java/ru/practicum/ewm/main/service/impl/CommentServiceImpl.java:56-58 | null or blank text is BadRequest; otherwise the trimmed text |
| Comments.NewCommentCases | ewm-main-service/src/main/java/ru/practicum/ewm/main/service/impl/CommentServiceImpl.java:48-66 | NotFound for an unknown user or event; Conflict for an unpublished event before the text check; otherwise the trimmed text, created now |
| Comments.NewComment | ewm-main-service/src/main/java/ru/practicum/ewm/main/service/impl/CommentServiceImpl.java:48-66 | errors are NotFound, Conflict or BadRequest; a new comment takes the next id, the event and the author, created now and not updated |
| Comments.EditCases | ewm-main-service/src/main/java/ru/practicum/ewm/main/service/impl/CommentServiceImpl.java:70-90 | NotFound for a non-author; BadRequest for blank text; Conflict exactly outside the five-hour window; otherwise trimmed text and updatedOn now, nothing else changed |
| Comments.Edit | ewm-main-service/src/main/java/ru/practicum/ewm/main/service/impl/CommentServiceImpl.java:70-90 | errors are NotFound, BadRequest or Conflict; an edit keeps the id, event and author and stamps updatedOn now |
| Comments.EditWindowExamples | ewm-main-service/src/main/java/ru/practicum/ewm/main/service/impl/CommentServiceImpl.java:83-86 | a 4-hour-old comment edits, a 6-hour-old does not, exactly five hours still does |
| Comments.DeletionRules | ewm-main-service/src/main/java/ru/practicum/ewm/main/service/impl/CommentServiceImpl.java:94-114 | only the author deletes their own; the admin deletes any existing comment; deletion removes only that comment |
| Comments.DeleteOwn | ewm-main-service/src/main/java/ru/practicum/ewm/main/service/impl/CommentServiceImpl.java:94-104 | only NotFound; on success the comment was the user's and exactly it is gone |
| Common.DeleteExisting | ewm-main-service/src/main/java/ru/practicum/ewm/main/service/impl/CommentServiceImpl.java:108-114 | NotFound exactly for a missing id; on success exactly that row is gone and every other row is kept as it was (the administrator's comment delete, and the compilation delete of CompilationServiceImpl.java lines 45-51) |
| Comments.NewCommentKeepsTableValid | ewm-main-service/src/main/java/ru/practicum/ewm/main/service/impl/CommentServiceImpl.java:59-64 | a new comment takes a fresh id and keeps the table valid |
| Comments.EditKeepsTableValid | ewm-main-service/src/main/java/ru/practicum/ewm/main/service/impl/CommentServiceImpl.java:87-88 | an edit keeps the table valid |
| Comments.OfEvent | ewm-main-service/src/main/java/ru/practicum/ewm/main/repository/CommentRepository.java:12 | exactly the stored comments of the event |
| Comments.CommentPage | ewm-main-service/src/main/java/ru/practicum/ewm/main/service/impl/CommentServiceImpl.java:38-44 | a zero size divides by zero; a negative size is refused; otherwise the usual page |
| Comments.EventComments | ewm-main-service/src/main/java/ru/practicum/ewm/main/service/impl/CommentServiceImpl.java:38-44 | NotFound for an unknown event; at most a page of the event's comments, newest first |
| Comments.CommentServiceImpl.GetEventComments | ewm-main-service/src/main/java/ru/practicum/ewm/main/service/impl/CommentServiceImpl.java:38-44 | NotFound for an unknown event; otherwise at most a page of that event's stored comments, newest first |
| Comments.CommentServiceImpl.AddComment | ewm-main-service/src/main/java/ru/practicum/ewm/main/service/impl/CommentServiceImpl.java:48-66 | stores the new comment on success, nothing on an error |
| Comments.CommentServiceImpl.EditOwnComment | ewm-main-service/src/main/java/ru/practicum/ewm/main/service/impl/CommentServiceImpl.java:70-90 | stores the edit on success, nothing on an error |
| Comments.CommentServiceImpl.DeleteOwnComment | ewm-main-service/src/main/java/ru/practicum/ewm/main/service/impl/CommentServiceImpl.java:94-104 | removes the comment on success, nothing on an error |
| Comments.CommentServiceImpl.DeleteCommentByAdmin | ewm-main-service/src/main/java/ru/practicum/ewm/main/service/impl/CommentServiceImpl.java:108-114 | removes the comment on success, nothing on an error |
| Compilations.ResolveEvents | ewm-main-service/src/main/java/ru/practicum/ewm/main/service/impl/CompilationServiceImpl.java:82-89 | an error is NotFound, and resolved ids are stored events |
| Compilations.ResolveEventsCases | ewm-main-service/src/main/java/ru/practicum/ewm/main/service/impl/CompilationServiceImpl.java:82-89 | null or empty resolves to no events; otherwise it succeeds exactly when every id exists and none repeats, giving the set of the ids |
| Compilations.ResolveEventsRefusesRepeats | ewm-main-service/src/main/java/ru/practicum/ewm/main/service/impl/CompilationServiceImpl.java:84-87 | a repeated id makes findAllById return fewer events than requested, so [1, 1] is NotFound |
| Compilations.CreationKeepsTable | ewm-main-service/src/main/java/ru/practicum/ewm/main/service/impl/CompilationServiceImpl.java:36-41 | a new compilation takes a fresh id, the title and pinned flag given, and keeps titles distinct |
| Compilations.Creation | ewm-main-service/src/main/java/ru/practicum/ewm/main/service/impl/CompilationServiceImpl.java:36-41 | NotFound or an integrity violation; on success the next id, the given title and pinned flag, and a title no other compilation holds |
| Compilations.UpdateKeepsTable | ewm-main-service/src/main/java/ru/practicum/ewm/main/service/impl/CompilationServiceImpl.java:54-63 | null events keep the old set, given events replace it; title and pinned change only when given; titles stay distinct |
| Compilations.Updated | ewm-main-service/src/main/java/ru/practicum/ewm/main/service/impl/CompilationServiceImpl.java:54-63 | NotFound or an integrity violation; on success the same id and a title no other compilation holds |
| Compilations.EmptyUpdateKeepsCompilation | ewm-main-service/src/main/java/ru/practicum/ewm/main/service/impl/CompilationServiceImpl.java:54-63 | an all-null update changes nothing |
| Compilations.ToDto | ewm-main-service/src/main/java/ru/practicum/ewm/main/service/impl/CompilationServiceImpl.java:91-97 | the short views are exactly those of the stored events of the compilation, each with 0 confirmed and 0 views; no events give an empty list |
| Compilations.Listing | ewm-main-service/src/main/java/ru/practicum/ewm/main/service/impl/CompilationServiceImpl.java:66-71 | only stored compilations, pinned as asked |
| Compilations.AllCompilations | ewm-main-service/src/main/java/ru/practicum/ewm/main/service/impl/CompilationServiceImpl.java:66-71 | at most a page of compilation views, pinned as asked |
| Compilations.CompilationServiceImpl.Create | ewm-main-service/src/main/java/ru/practicum/ewm/main/service/impl/CompilationServiceImpl.java:36-41 | stores the compilation on success, nothing on an error |
| Compilations.CompilationServiceImpl.Delete | ewm-main-service/src/main/java/ru/practicum/ewm/main/service/impl/CompilationServiceImpl.java:45-50 | NotFound for a missing id; otherwise removes it |
| Compilations.CompilationServiceImpl.Update | ewm-main-service/src/main/java/ru/practicum/ewm/main/service/impl/CompilationServiceImpl.java:54-63 | stores the update on success, nothing on an error |
| Compilations.CompilationServiceImpl.GetById | ewm-main-service/src/main/java/ru/practicum/ewm/main/service/impl/CompilationServiceImpl.java:74-78 | NotFound exactly for a missing id; otherwise its view |
| Compilations.CompilationServiceImpl.GetAll | ewm-main-service/src/main/java/ru/practicum/ewm/main/service/impl/CompilationServiceImpl.java:66-71 | at most a page of views of stored compilations, only the pinned or only the unpinned ones when asked |
| PublicEvents.ClientIp | ewm-main-service/src/main/java/ru/practicum/ewm/main/controller/public_/PublicEventsController.java:21-28 | a missing or blank header gives the remote address; otherwise a part of the header with no blank at either end |
| PublicEvents.ClientIpIsFirstHop | ewm-main-service/src/main/java/ru/practicum/ewm/main/controller/public_/PublicEventsController.java:24-25 | any non-blank header "client, proxy, ..." gives the client part trimmed, including an empty client part when that part is blank |
| PublicEvents.ClientIpWithoutComma | ewm-main-service/src/main/java/ru/practicum/ewm/main/controller/public_/PublicEventsController.java:25 | without a comma the whole header, trimmed |
| PublicEvents.ClientIpLeadingComma | ewm-main-service/src/main/java/ru/practicum/ewm/main/controller/public_/PublicEventsController.java:25 | a comma at index 0 does not split the header |
| PublicEvents.ClientIpBlankFirstHop | ewm-main-service/src/main/java/ru/practicum/ewm/main/controller/public_/PublicEventsController.java:25 | blanks before the first comma give the empty address |
| PublicEvents.ClientIpBlankHeader | ewm-main-service/src/main/java/ru/practicum/ewm/main/controller/public_/PublicEventsController.java:23 | a blank header falls back to the remote address |
| PublicEvents.NormalizedSort | ewm-main-service/src/main/java/ru/practicum/ewm/main/controller/public_/PublicEventsController.java:52 | "VIEWS" exactly for VIEWS in any case, "EVENT_DATE" otherwise |
| PublicEvents.NormalizedSortAgrees | ewm-main-service/src/main/java/ru/practicum/ewm/main/controller/public_/PublicEventsController.java:52 | normalising is idempotent, and the service sorts by views exactly for what normalises to VIEWS |
| PublicEvents.RangeCheck | ewm-main-service/src/main/java/ru/practicum/ewm/main/controller/public_/PublicEventsController.java:43-51 | with a bound missing or blank nothing is checked; failures are a parse error or BadRequest |
| PublicEvents.RangeCheckOrder | ewm-main-service/src/main/java/ru/practicum/ewm/main/controller/public_/PublicEventsController.java:43-51 | two well-formed bounds are refused exactly when the end is strictly before the start; equal bounds pass |
| Stats.Window | ewm-stats-server/src/main/java/ru/practicum/stats/server/repo/EndpointHitRepository.java:16 | exactly the hits with the timestamp between the bounds inclusive, and the URI in the list when one is given |
| Stats.GroupSize | ewm-stats-server/src/main/java/ru/practicum/stats/server/repo/EndpointHitRepository.java:14 | COUNT(h.id) of a group: positive exactly when the group has a hit |
| Stats.UniqueAtMostAll | ewm-stats-server/src/main/java/ru/practicum/stats/server/repo/EndpointHitRepository.java:36 | COUNT(DISTINCT h.ip) never exceeds COUNT(h.id), and is positive when the group has hits |
| Stats.Groups | ewm-stats-server/src/main/java/ru/practicum/stats/server/repo/EndpointHitRepository.java:17 | GROUP BY app, uri: each group of the hits once |
| Stats.Rows | ewm-stats-server/src/main/java/ru/practicum/stats/server/repo/EndpointHitRepository.java:13-21 | one row per group, with that group's count |
| Stats.Aggregate | ewm-stats-server/src/main/java/ru/practicum/stats/server/repo/EndpointHitRepository.java:13-55 | the same rows as one per group, reordered; QueryRows gives the order |
| Stats.Query | ewm-stats-server/src/main/java/ru/practicum/stats/server/repo/EndpointHitRepository.java:13-55 | every row is the group of some hit counted in the window; QueryRows gives the rest |
| Stats.AggregateOncePerGroup | ewm-stats-server/src/main/java/ru/practicum/stats/server/repo/EndpointHitRepository.java:17 | no group appears twice in the answer |
| Stats.QueryRows | ewm-stats-server/src/main/java/ru/practicum/stats/server/repo/EndpointHitRepository.java:13-55 | rows in descending count order, each a group of counted hits with count at least 1 and a listed URI, every counted hit's group present once |
| Stats.UniqueNeverExceedsAll | ewm-stats-server/src/main/java/ru/practicum/stats/server/repo/EndpointHitRepository.java:35-43 | for the same window each distinct-IP row is at most the matching hit-count row |
| Stats.GetStatsResult | ewm-stats-server/src/main/java/ru/practicum/stats/server/service/StatsService.java:28-42 | unparseable bounds are a parse error; an end strictly before the start is IllegalArgumentException |
| Stats.GetStatsDispatch | ewm-stats-server/src/main/java/ru/practicum/stats/server/service/StatsService.java:31-41 | equal bounds are accepted, and a null or empty URI list applies no URI filter |
| Stats.RecordedHitCounts | ewm-stats-server/src/main/java/ru/practicum/stats/server/service/StatsService.java:23-25 | a recorded hit adds one to its own group's size and none to others |
| Stats.WindowAppend | ewm-stats-server/src/main/java/ru/practicum/stats/server/service/StatsService.java:23-25 | the window of the longer table is the old window plus the new hit when counted |
| Stats.SavedHitCounted | ewm-stats-server/src/main/java/ru/practicum/stats/server/service/StatsService.java:23-25 | after saveHit the hit count of the new hit's group is one more in every window that holds it; others are unchanged |
| Stats.StatsService.SaveHit | ewm-stats-server/src/main/java/ru/practicum/stats/server/service/StatsService.java:22-25 | exactly one hit is appended, under the next id |
| Stats.StatsService.GetStats | ewm-stats-server/src/main/java/ru/practicum/stats/server/service/StatsService.java:27-42 | a parse error for an unparseable bound and IllegalArgumentException for an inverted window; otherwise rows in descending count order, each for a distinct group with a hit, count at least 1 and a listed URI |

## Left out

- HTTP, controllers other than the three rules of `PublicEventsController`, and request-body validation annotations. They are framework plumbing; the handler for the exceptions they raise is modelled.
- The statistics client and its network calls. Recording a hit from the main service is fire-and-forget, and its answer is a parameter (`byUri`).
- The stats server's own controller and error handler, and `StatsMapper`. A hit's fields, including its timestamp, arrive already parsed.
- Logging.
- Concurrency: every operation is sequential.
- The capacity invariant (no event has more confirmed requests than its positive limit) is proved preserved only by `addRequest` (`AdmissionKeepsCapacity`) and `cancelRequest` (`CancellationKeepsCapacity`). `updateEventRequests` keeps only the event it is called for within its limit (`ResolutionWithinLimit`); `ResolutionMayOverfillAnotherEvent` shows it overfilling another event. `updateUserEvent` and `updateAdminEvent` copy a new participant limit without comparing it with the confirmed requests (`AdminEditMayBreakCapacity` shows one left over its limit), so no invariant is proved across those edits.
- Time: one `now` per call, in whole seconds. The model does not use the separate `LocalDateTime.now()` readings the source takes within one call.
- Event dates inside the main service are integers in seconds. A request's date text is either already parsed or marked unparseable; the text format itself is modelled once, in `DateTimeMapper`.
- DateTimeMapper.Parse: does not accept "24:00:00" (which Java's SMART resolver turns into the next day's midnight), or years outside 0001–9999.
- Location rows, their identity, and the conversion of their float coordinates. Coordinates are copied as a value.
- The order of rows with equal sort keys in a database page, and the order `findAllById` returns rows in. The model fixes one order (table order, and first occurrence of the id); the source leaves it to the database.
- The order of a compilation's events. The source keeps them in a `HashSet`, so the model gives them as a set.
- Ties between statistics groups with equal counts. The model gives them in the order the groups first appear.
- SortDesc: no lemma states that it keeps elements with equal keys in their input order, as `java.util.List.sort` does; only the descending order and the permutation are proved.
- SQL `LIKE` backslash escaping. A `%` or `_` inside the search text is a wildcard in both the source and the model; the contains-lemma assumes a text without them.
- Case mapping is modelled for ASCII letters only, not for full Unicode.
- The mapper's in-place update of a managed entity is modelled as a function returning the new record. Aliasing of that entity is not modelled.
- `CategoryServiceImpl.getAll`: a plain page of the category table with no rule of its own.
- `UserServiceImpl` and the user administration endpoints: outside the core. Users appear only as the set of known ids.
- model/Event.java, model/Category.java, model/Comment.java, the category and compilation repositories, the user `StateAction` enum, `UpdateEventAdminRequest`, and the stats server's `EndpointHitEntity` and DTOs are not part of this model. The fields of those records are inferred from the mapper, the services and the queries that use them.
