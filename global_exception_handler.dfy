/**
 * GlobalExceptionHandler: every exception that escapes a controller becomes
 * an ApiError body with an HTTP status.  Domain exceptions keep their
 * message; bean-validation failures list their field errors; integrity
 * violations report the most specific cause; anything else is a 500 naming
 * the exception class.
 */
module GlobalExceptionHandler {
  import opened Common
  import DateTimeMapper

  datatype HttpStatus = NOT_FOUND | CONFLICT | BAD_REQUEST | INTERNAL_SERVER_ERROR

  /** HttpStatus.name(). */
  function StatusName(s: HttpStatus): string
  {
    match s
    case NOT_FOUND => "NOT_FOUND"
    case CONFLICT => "CONFLICT"
    case BAD_REQUEST => "BAD_REQUEST"
    case INTERNAL_SERVER_ERROR => "INTERNAL_SERVER_ERROR"
  }

  /** The framework exceptions handled together as client errors. */
  datatype ClientErrorKind =
    | ConstraintViolation
    | MissingServletRequestParameter
    | HttpMessageNotReadable
    | IllegalArgumentException
    | MethodArgumentTypeMismatch

  /** A rejected field of a request body; absent parts print as "null". */
  datatype FieldError = FieldError(field: Option<string>, defaultMessage: Option<string>,
                                   rejectedValue: Option<string>)

  datatype Exception =
    | NotFoundException(message: Option<string>)
    | ConflictException(message: Option<string>)
    | BadRequestException(message: Option<string>)
    | MethodArgumentNotValid(fieldErrors: seq<FieldError>, message: Option<string>)
    | ClientError(kind: ClientErrorKind, message: Option<string>)
    /** getMostSpecificCause() is never null: it is the root cause, or the
        exception itself when there is none.  None in the second field is
        therefore a most specific cause whose message is null. */
    | DataIntegrityViolation(message: Option<string>, mostSpecificCauseMessage: Option<string>)
    | Unexpected(className: string, message: Option<string>)

  datatype ApiError = ApiError(errors: seq<string>, message: Option<string>, reason: string,
                               status: string, timestamp: string)

  const NOT_FOUND_REASON: string := "The required object was not found."
  const CONFLICT_REASON: string := "For the requested operation the conditions are not met."
  const BAD_REQUEST_REASON: string := "Incorrectly made request."
  const INTEGRITY_REASON: string := "Integrity constraint has been violated."
  const UNEXPECTED_REASON: string := "Unexpected error."

  /** String.valueOf: null prints as "null". */
  function Show(s: Option<string>): string
  {
    s.GetOr("null")
  }

  /** "Field: %s. Error: %s. Value: %s" */
  function DescribeFieldError(e: FieldError): (s: string)
    ensures |s| > 0
  {
    "Field: " + Show(e.field) + ". Error: " + Show(e.defaultMessage) + ". Value: " + Show(e.rejectedValue)
  }

  /** Collectors.joining("; ") over the described field errors. */
  function JoinFieldErrors(errs: seq<FieldError>): (s: string)
    ensures s == [] <==> errs == []
    ensures errs != [] ==> |DescribeFieldError(errs[0])| <= |s|
                           && s[..|DescribeFieldError(errs[0])|] == DescribeFieldError(errs[0])
    ensures |errs| == 1 ==> s == DescribeFieldError(errs[0])
  {
    if errs == [] then ""
    else if |errs| == 1 then DescribeFieldError(errs[0])
    else DescribeFieldError(errs[0]) + "; " + JoinFieldErrors(errs[1..])
  }

  /** The status each handler answers with. */
  function StatusOf(ex: Exception): HttpStatus
  {
    match ex
    case NotFoundException(_) => NOT_FOUND
    case ConflictException(_) => CONFLICT
    case DataIntegrityViolation(_, _) => CONFLICT
    case BadRequestException(_) => BAD_REQUEST
    case MethodArgumentNotValid(_, _) => BAD_REQUEST
    case ClientError(_, _) => BAD_REQUEST
    case Unexpected(_, _) => INTERNAL_SERVER_ERROR
  }

  /** The handler chosen for `ex`, applied at time `now`. */
  function Handle(ex: Exception, now: DateTimeMapper.DateTime): (e: ApiError)
    requires DateTimeMapper.Valid(now)
    ensures e.status == StatusName(StatusOf(ex))
    ensures e.timestamp == DateTimeMapper.Format(now)
    ensures e.errors == (if ex.Unexpected? then [ex.className] else [])
    ensures (ex.NotFoundException? || ex.ConflictException? || ex.BadRequestException?
             || ex.ClientError? || ex.Unexpected?) ==> e.message == ex.message
    ensures StatusOf(ex) == NOT_FOUND ==> e.reason == NOT_FOUND_REASON
    ensures StatusOf(ex) == BAD_REQUEST ==> e.reason == BAD_REQUEST_REASON
    ensures StatusOf(ex) == INTERNAL_SERVER_ERROR ==> e.reason == UNEXPECTED_REASON
    ensures ex.ConflictException? ==> e.reason == CONFLICT_REASON
  {
    var stamp := DateTimeMapper.Format(now);
    match ex
    case NotFoundException(m) => ApiError([], m, NOT_FOUND_REASON, "NOT_FOUND", stamp)
    case ConflictException(m) => ApiError([], m, CONFLICT_REASON, "CONFLICT", stamp)
    case BadRequestException(m) => ApiError([], m, BAD_REQUEST_REASON, "BAD_REQUEST", stamp)
    case MethodArgumentNotValid(errs, m) =>
      var joined := JoinFieldErrors(errs);
      ApiError([], if joined == [] then m else Some(joined), BAD_REQUEST_REASON, "BAD_REQUEST", stamp)
    case ClientError(_, m) => ApiError([], m, BAD_REQUEST_REASON, "BAD_REQUEST", stamp)
    case DataIntegrityViolation(_, cause) =>
      ApiError([], cause, INTEGRITY_REASON, "CONFLICT", stamp)
    case Unexpected(name, m) => ApiError([name], m, UNEXPECTED_REASON, "INTERNAL_SERVER_ERROR", stamp)
  }

  /** The exception a core error surfaces as.  A DateTimeParseException is
      none of the handled classes, so it falls through to the 500 handler. */
  function ExceptionOf(kind: ErrorKind, message: Option<string>): (ex: Exception)
    ensures kind == DateTimeParse || kind == Arithmetic ==> ex.Unexpected?
  {
    match kind
    case NotFound => NotFoundException(message)
    case Conflict => ConflictException(message)
    case BadRequest => BadRequestException(message)
    case IllegalArgument => ClientError(IllegalArgumentException, message)
    case IntegrityViolation => DataIntegrityViolation(message, message)
    case DateTimeParse => Unexpected("java.time.format.DateTimeParseException", message)
    case Arithmetic => Unexpected("java.lang.ArithmeticException", message)
  }

  /** The HTTP status of every core error. */
  lemma StatusOfCoreErrors(m: Option<string>)
    ensures StatusOf(ExceptionOf(NotFound, m)) == NOT_FOUND
    ensures StatusOf(ExceptionOf(Conflict, m)) == CONFLICT
    ensures StatusOf(ExceptionOf(IntegrityViolation, m)) == CONFLICT
    ensures StatusOf(ExceptionOf(BadRequest, m)) == BAD_REQUEST
    ensures StatusOf(ExceptionOf(IllegalArgument, m)) == BAD_REQUEST
    ensures StatusOf(ExceptionOf(DateTimeParse, m)) == INTERNAL_SERVER_ERROR
    ensures StatusOf(ExceptionOf(Arithmetic, m)) == INTERNAL_SERVER_ERROR
  {
  }

  /** A validation failure reports its field errors, and falls back to the
      exception's own message exactly when there are none. */
  lemma ValidationMessage(errs: seq<FieldError>, m: Option<string>, now: DateTimeMapper.DateTime)
    requires DateTimeMapper.Valid(now)
    ensures errs == [] ==> Handle(MethodArgumentNotValid(errs, m), now).message == m
    ensures errs != [] ==> Handle(MethodArgumentNotValid(errs, m), now).message
                           == Some(JoinFieldErrors(errs))
  {
  }

  /** An integrity violation reports the most specific cause's message, null
      included; the exception's own message plays no part. */
  lemma IntegrityMessage(m: Option<string>, cause: Option<string>, now: DateTimeMapper.DateTime)
    requires DateTimeMapper.Valid(now)
    ensures Handle(DataIntegrityViolation(m, cause), now).message == cause
    ensures Handle(DataIntegrityViolation(m, cause), now).reason == INTEGRITY_REASON
    ensures Handle(DataIntegrityViolation(m, cause), now) == Handle(DataIntegrityViolation(None, cause), now)
  {
  }
}
