/**
 * `GlobalExceptionHandler`: the HTTP status and error body each exception
 * that reaches a controller turns into. Spring picks, among the handlers,
 * the one declared for the closest superclass of the thrown exception; that
 * resolution is written out separately (`ResolveFrom`) and shown to agree with
 * the table `Handle` states directly.
 */
module GlobalExceptionHandler {
  import opened Wrappers
  import opened Errors

  /** The `ErrorDetails` body, without its timestamp. */
  datatype ErrorDetails = ErrorDetails(status: int, error: string, message: string, path: string)

  const NotFound: int := 404
  const Unauthorized: int := 401
  const Forbidden: int := 403
  const BadRequest: int := 400
  const Conflict: int := 409
  const InternalServerError: int := 500

  /** `HttpStatus.getReasonPhrase()` for the statuses the handler uses. */
  function ReasonPhrase(status: int): string {
    if status == NotFound then "Not Found"
    else if status == Unauthorized then "Unauthorized"
    else if status == Forbidden then "Forbidden"
    else if status == BadRequest then "Bad Request"
    else if status == Conflict then "Conflict"
    else "Internal Server Error"
  }

  const UserNotFoundText: string := "User not found. Please check your email and try again."
  const InvalidCredentialsText: string := "Invalid credentials. Please check your password and try again."
  const ForbiddenText: string := "You don't have permission to access this resource"
  const ValidationFailedText: string := "Validation failed"
  const GenericText: string := "Something went wrong. Please try again later."
  const FieldSeparator: string := "; "

  /** `reduce((m1, m2) -> m1 + "; " + m2).orElse("Validation failed")` over the field messages. */
  function JoinFieldMessages(ms: seq<string>): (r: string)
    ensures |ms| == 0 ==> r == ValidationFailedText
    ensures |ms| > 0 ==> |ms[0]| <= |r| && r[..|ms[0]|] == ms[0]
    ensures |ms| > 0 ==> |ms[|ms| - 1]| <= |r| && r[|r| - |ms[|ms| - 1]|..] == ms[|ms| - 1]
  {
    if |ms| == 0 then ValidationFailedText
    else if |ms| == 1 then ms[0]
    else
      var init := JoinFieldMessages(ms[..|ms| - 1]);
      assert ms[..|ms| - 1][0] == ms[0];
      assert (init + FieldSeparator + ms[|ms| - 1])[..|ms[0]|] == init[..|ms[0]|];
      init + FieldSeparator + ms[|ms| - 1]
  }

  /** The messages with "; " between neighbours, built from the front. */
  function Joined(ms: seq<string>): string {
    if |ms| == 0 then ""
    else if |ms| == 1 then ms[0]
    else ms[0] + FieldSeparator + Joined(ms[1..])
  }

  lemma {:induction false} JoinedSnoc(ms: seq<string>, m: string)
    requires |ms| > 0
    ensures Joined(ms + [m]) == Joined(ms) + FieldSeparator + m
    decreases |ms|
  {
    if |ms| > 1 {
      assert (ms + [m])[1..] == ms[1..] + [m];
      JoinedSnoc(ms[1..], m);
    } else {
      assert (ms + [m])[1..] == [m];
    }
  }

  /** The reduction from the left gives the messages separated by "; ", in order. */
  lemma {:induction false} JoinFieldMessagesIsJoined(ms: seq<string>)
    requires |ms| > 0
    ensures JoinFieldMessages(ms) == Joined(ms)
    decreases |ms|
  {
    if |ms| > 1 {
      var init := ms[..|ms| - 1];
      JoinFieldMessagesIsJoined(init);
      JoinedSnoc(init, ms[|ms| - 1]);
      assert init + [ms[|ms| - 1]] == ms;
    }
  }

  /** `buildErrorDetails(request, status, message)`. */
  function Build(status: int, message: string, path: string): (d: ErrorDetails)
    ensures d.status == status && d.error == ReasonPhrase(status) && d.message == message && d.path == path
  {
    ErrorDetails(status, ReasonPhrase(status), message, path)
  }

  /** The status the handler answers exception `e` with. */
  function Status(e: Exception): (s: int)
    ensures s == NotFound <==> e.UsernameNotFound? || e.TokenNotFound? || e.UserNotFound?
    ensures s == Unauthorized <==> e.BadCredentials? || e.InternalAuthentication?
    ensures s == Forbidden <==> e.AuthorizationDenied?
    ensures s == BadRequest <==> e.ArgumentNotValid? || e.InvalidCredentials? || e.TokenExpired?
    ensures s == Conflict <==> e.UserAlreadyExists?
    ensures s == InternalServerError <==>
      e.IllegalArgument? || e.IndexOutOfBounds? || e.DataIntegrityViolation? || e.IncorrectResultSize? || e.Runtime?
  {
    match e
    case UsernameNotFound(_) => NotFound
    case BadCredentials(_) => Unauthorized
    case InternalAuthentication(_) => Unauthorized
    case AuthorizationDenied(_) => Forbidden
    case ArgumentNotValid(_, _) => BadRequest
    case UserAlreadyExists(_) => Conflict
    case TokenNotFound(_) => NotFound
    case UserNotFound(_) => NotFound
    case InvalidCredentials(_) => BadRequest
    case TokenExpired(_) => BadRequest
    case IllegalArgument(_) => InternalServerError
    case IndexOutOfBounds(_) => InternalServerError
    case DataIntegrityViolation(_) => InternalServerError
    case IncorrectResultSize(_) => InternalServerError
    case Runtime(_) => InternalServerError
  }

  /** The body's message for exception `e`. */
  function Message(e: Exception): (m: string)
    ensures e.UserAlreadyExists? || e.TokenNotFound? || e.UserNotFound? || e.InvalidCredentials? || e.TokenExpired? ==>
      m == e.message
    ensures e.UsernameNotFound? ==> m == UserNotFoundText
    ensures e.BadCredentials? || e.InternalAuthentication? ==> m == InvalidCredentialsText
    ensures Status(e) == InternalServerError ==> m == GenericText
  {
    match e
    case UsernameNotFound(_) => UserNotFoundText
    case BadCredentials(_) => InvalidCredentialsText
    case InternalAuthentication(_) => InvalidCredentialsText
    case AuthorizationDenied(_) => ForbiddenText
    case ArgumentNotValid(_, fields) => JoinFieldMessages(fields)
    case UserAlreadyExists(m) => m
    case TokenNotFound(m) => m
    case UserNotFound(m) => m
    case InvalidCredentials(m) => m
    case TokenExpired(m) => m
    case IllegalArgument(_) => GenericText
    case IndexOutOfBounds(_) => GenericText
    case DataIntegrityViolation(_) => GenericText
    case IncorrectResultSize(_) => GenericText
    case Runtime(_) => GenericText
  }

  /** The response for exception `e` raised while serving `path`. */
  function Handle(e: Exception, path: string): (d: ErrorDetails)
    ensures d.path == path && d.error == ReasonPhrase(d.status)
    ensures d.status == Status(e) && d.message == Message(e)
  {
    Build(Status(e), Message(e), path)
  }

  /** The Java classes involved, as far as the handler's resolution needs them. */
  datatype JavaClass =
    | ExceptionClass | RuntimeExceptionClass | IllegalArgumentClass
    | IndexOutOfBoundsClass | ArrayIndexOutOfBoundsClass
    | AuthenticationExceptionClass | UsernameNotFoundClass | BadCredentialsClass
    | InternalAuthenticationServiceClass | AccessDeniedClass | AuthorizationDeniedClass
    | BindExceptionClass | MethodArgumentNotValidClass
    | DataAccessClass | DataIntegrityViolationClass | IncorrectResultSizeClass
    | UserAlreadyExistsClass | TokenNotFoundClass | UserNotFoundClass
    | InvalidCredentialsClass | TokenExpiredClass

  /** The class `e` is an instance of. */
  function ClassOf(e: Exception): JavaClass {
    match e
    case UsernameNotFound(_) => UsernameNotFoundClass
    case BadCredentials(_) => BadCredentialsClass
    case InternalAuthentication(_) => InternalAuthenticationServiceClass
    case AuthorizationDenied(_) => AuthorizationDeniedClass
    case ArgumentNotValid(_, _) => MethodArgumentNotValidClass
    case UserAlreadyExists(_) => UserAlreadyExistsClass
    case TokenNotFound(_) => TokenNotFoundClass
    case UserNotFound(_) => UserNotFoundClass
    case InvalidCredentials(_) => InvalidCredentialsClass
    case TokenExpired(_) => TokenExpiredClass
    case IllegalArgument(_) => IllegalArgumentClass
    case IndexOutOfBounds(_) => ArrayIndexOutOfBoundsClass
    case DataIntegrityViolation(_) => DataIntegrityViolationClass
    case IncorrectResultSize(_) => IncorrectResultSizeClass
    case Runtime(_) => RuntimeExceptionClass
  }

  /** The direct superclass, up to `Exception` (whose own superclass the handler never reaches). */
  function Superclass(c: JavaClass): Option<JavaClass> {
    match c
    case ExceptionClass => None
    case RuntimeExceptionClass => Some(ExceptionClass)
    case BindExceptionClass => Some(ExceptionClass)
    case MethodArgumentNotValidClass => Some(BindExceptionClass)
    case IllegalArgumentClass => Some(RuntimeExceptionClass)
    case IndexOutOfBoundsClass => Some(RuntimeExceptionClass)
    case ArrayIndexOutOfBoundsClass => Some(IndexOutOfBoundsClass)
    case AuthenticationExceptionClass => Some(RuntimeExceptionClass)
    case UsernameNotFoundClass => Some(AuthenticationExceptionClass)
    case BadCredentialsClass => Some(AuthenticationExceptionClass)
    case InternalAuthenticationServiceClass => Some(AuthenticationExceptionClass)
    case AccessDeniedClass => Some(RuntimeExceptionClass)
    case AuthorizationDeniedClass => Some(AccessDeniedClass)
    case DataAccessClass => Some(RuntimeExceptionClass)
    case DataIntegrityViolationClass => Some(DataAccessClass)
    case IncorrectResultSizeClass => Some(DataAccessClass)
    case UserAlreadyExistsClass => Some(RuntimeExceptionClass)
    case TokenNotFoundClass => Some(RuntimeExceptionClass)
    case UserNotFoundClass => Some(RuntimeExceptionClass)
    case InvalidCredentialsClass => Some(RuntimeExceptionClass)
    case TokenExpiredClass => Some(RuntimeExceptionClass)
  }

  /** How far a class is below `Exception`. */
  function Depth(c: JavaClass): nat {
    match c
    case ExceptionClass => 0
    case RuntimeExceptionClass => 1
    case BindExceptionClass => 1
    case ArrayIndexOutOfBoundsClass => 3
    case UsernameNotFoundClass => 3
    case BadCredentialsClass => 3
    case InternalAuthenticationServiceClass => 3
    case AuthorizationDeniedClass => 3
    case DataIntegrityViolationClass => 3
    case IncorrectResultSizeClass => 3
    case _ => 2
  }

  lemma SuperclassIsShallower(c: JavaClass)
    ensures Superclass(c).Some? ==> Depth(Superclass(c).value) < Depth(c)
  {
  }

  /** The eight `@ExceptionHandler` methods, in declaration order. */
  datatype Handler =
    | HandleUsernameNotFound | HandleAuthentication | HandleAuthorizationDenied | HandleValidation
    | HandleConflict | HandleNotFound | HandleBadRequest | HandleAll

  /** The handler method whose `@ExceptionHandler` lists exactly class `c`, if any. */
  function DeclaredFor(c: JavaClass): Option<Handler> {
    match c
    case UsernameNotFoundClass => Some(HandleUsernameNotFound)
    case AuthenticationExceptionClass => Some(HandleAuthentication)
    case AuthorizationDeniedClass => Some(HandleAuthorizationDenied)
    case MethodArgumentNotValidClass => Some(HandleValidation)
    case UserAlreadyExistsClass => Some(HandleConflict)
    case TokenNotFoundClass => Some(HandleNotFound)
    case UserNotFoundClass => Some(HandleNotFound)
    case InvalidCredentialsClass => Some(HandleBadRequest)
    case TokenExpiredClass => Some(HandleBadRequest)
    case ExceptionClass => Some(HandleAll)
    case _ => None
  }

  /**
   * Spring's choice: walking up from `c`, the handler declared for the first
   * class that has one. `Exception` has one, so the walk always ends there at
   * the latest.
   */
  function ResolveFrom(c: JavaClass): (h: Handler)
    ensures DeclaredFor(c).Some? ==> h == DeclaredFor(c).value
    decreases Depth(c)
  {
    match DeclaredFor(c)
    case Some(h) => h
    case None =>
      match Superclass(c)
      case None => HandleAll
      case Some(p) =>
        SuperclassIsShallower(c);
        ResolveFrom(p)
  }

  /** What each handler method answers. */
  function Respond(h: Handler, e: Exception, path: string): ErrorDetails {
    match h
    case HandleUsernameNotFound => Build(NotFound, UserNotFoundText, path)
    case HandleAuthentication => Build(Unauthorized, InvalidCredentialsText, path)
    case HandleAuthorizationDenied => Build(Forbidden, ForbiddenText, path)
    case HandleValidation =>
      Build(BadRequest, if e.ArgumentNotValid? then JoinFieldMessages(e.fieldMessages) else ValidationFailedText, path)
    case HandleConflict => Build(Conflict, e.message, path)
    case HandleNotFound => Build(NotFound, e.message, path)
    case HandleBadRequest => Build(BadRequest, e.message, path)
    case HandleAll => Build(InternalServerError, GenericText, path)
  }

  /** The handlers Spring resolves for the security exceptions. */
  lemma SecurityExceptionsResolve(e: Exception, path: string)
    requires e.UsernameNotFound? || e.BadCredentials? || e.InternalAuthentication? || e.AuthorizationDenied?
    ensures Handle(e, path) == Respond(ResolveFrom(ClassOf(e)), e, path)
  {
    assert ResolveFrom(BadCredentialsClass) == ResolveFrom(AuthenticationExceptionClass);
    assert ResolveFrom(InternalAuthenticationServiceClass) == ResolveFrom(AuthenticationExceptionClass);
  }

  /** The handlers Spring resolves for the application's own exceptions and validation. */
  lemma ApplicationExceptionsResolve(e: Exception, path: string)
    requires e.ArgumentNotValid? || e.UserAlreadyExists? || e.TokenNotFound? || e.UserNotFound? ||
             e.InvalidCredentials? || e.TokenExpired?
    ensures Handle(e, path) == Respond(ResolveFrom(ClassOf(e)), e, path)
  {
  }

  /** Everything else falls through to the `Exception` handler. */
  lemma OtherExceptionsResolve(e: Exception, path: string)
    requires e.IllegalArgument? || e.IndexOutOfBounds? || e.DataIntegrityViolation? ||
             e.IncorrectResultSize? || e.Runtime?
    ensures Handle(e, path) == Respond(ResolveFrom(ClassOf(e)), e, path)
  {
    assert ResolveFrom(RuntimeExceptionClass) == HandleAll;
    assert ResolveFrom(IllegalArgumentClass) == HandleAll;
    assert ResolveFrom(IndexOutOfBoundsClass) == HandleAll;
    assert ResolveFrom(ArrayIndexOutOfBoundsClass) == HandleAll;
    assert ResolveFrom(DataAccessClass) == HandleAll;
    assert ResolveFrom(DataIntegrityViolationClass) == HandleAll;
    assert ResolveFrom(IncorrectResultSizeClass) == HandleAll;
  }

  /**
   * The status table agrees with the most-specific-handler resolution for
   * every exception: in particular `UsernameNotFoundException`, although an
   * `AuthenticationException`, gets the 404 handler.
   */
  lemma HandleIsMostSpecific(e: Exception, path: string)
    ensures Handle(e, path) == Respond(ResolveFrom(ClassOf(e)), e, path)
  {
    if e.UsernameNotFound? || e.BadCredentials? || e.InternalAuthentication? || e.AuthorizationDenied? {
      SecurityExceptionsResolve(e, path);
    } else if e.IllegalArgument? || e.IndexOutOfBounds? || e.DataIntegrityViolation? ||
              e.IncorrectResultSize? || e.Runtime? {
      OtherExceptionsResolve(e, path);
    } else {
      ApplicationExceptionsResolve(e, path);
    }
  }
}
