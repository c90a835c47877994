/**
 * The exceptions the modelled code throws or lets through, one constructor per
 * Java exception class. Framework exceptions whose text the code never
 * chooses carry a fixed stand-in message.
 */
module Errors {

  datatype Exception =
    | UserAlreadyExists(message: string)       // UserAlreadyExistsException
    | InvalidCredentials(message: string)      // InvalidCredentialsException
    | TokenExpired(message: string)            // TokenExpiredException
    | TokenNotFound(message: string)           // TokenNotFoundException
    | UserNotFound(message: string)            // UserNotFoundException
    | UsernameNotFound(message: string)        // Spring Security, an AuthenticationException
    | BadCredentials(message: string)          // BadCredentialsException, an AuthenticationException
    | InternalAuthentication(message: string)  // InternalAuthenticationServiceException, an AuthenticationException
    | AuthorizationDenied(message: string)     // AuthorizationDeniedException from @PreAuthorize
    | ArgumentNotValid(message: string, fieldMessages: seq<string>) // MethodArgumentNotValidException
    | IllegalArgument(message: string)         // IllegalArgumentException
    | IndexOutOfBounds(message: string)        // ArrayIndexOutOfBoundsException
    | DataIntegrityViolation(message: string)  // unique-constraint failure on insert
    | IncorrectResultSize(message: string)     // a single-row finder matched several rows
    | Runtime(message: string)                 // a plain RuntimeException

  /** The text of `new String[0][0]`'s ArrayIndexOutOfBoundsException. */
  const EmptyArrayIndexMessage: string := "Index 0 out of bounds for length 0"

  const DuplicateKeyMessage: string := "duplicate key value violates unique constraint"

  /** The text `DaoAuthenticationProvider` gives both an unknown user and a wrong password. */
  const BadCredentialsMessage: string := "Bad credentials"

  /**
   * Stands in for the message of the exception a derived finder raises when
   * several rows match. The persistence provider's real text goes on to name
   * the number of rows returned ("...: 2 results were returned"); the model
   * keeps one fixed text for every count.
   */
  const NonUniqueResultMessage: string := "query did not return a unique result"
}
