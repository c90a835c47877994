/**
 * `UserDetailsServiceConfigImpl.loadUserByUsername`, which Spring Security
 * calls with the login email, and the password check the framework's
 * `DaoAuthenticationProvider` performs with it when `AuthService.login`
 * authenticates. The password encoder's `matches` is a parameter.
 */
module UserDetailsServiceConfigImpl {
  import opened Wrappers
  import opened Store
  import opened Errors
  import opened UserEntity
  import opened UserRepository

  /** Spring Security's `User`: principal name, password hash, authorities. */
  datatype UserDetails = UserDetails(username: string, password: string, authorities: seq<string>)

  const NotFoundMessage: string := "User not found"

  /** What the framework `User` constructor says about an empty principal name. */
  const EmptyValuesMessage: string := "Cannot pass null or empty values to constructor"

  /** Row `i` is the only user with this email. */
  predicate SoleHolder(us: Users, email: string, i: int) {
    0 <= i < |us| && us[i].email == email &&
    forall j :: 0 <= j < |us| && us[j].email == email ==> j == i
  }

  /**
   * `loadUserByUsername(email)`: the one user with that email, as details
   * named by the email and granted `"ROLE_" + role` per role. No user gives
   * `UsernameNotFoundException`; several give the finder's exception; an
   * empty email is refused by the framework constructor.
   */
  function LoadUserByUsername(us: Users, email: string): (r: Result<UserDetails, Exception>)
    ensures r.Ok? <==> email != "" && FindByEmail(us, email).Found?
    ensures r.Ok? ==> exists i :: (0 <= i < |us| && us[i].email == email &&
                                   r.value == UserDetails(email, us[i].password, Authorities(us[i].roles)))
    ensures r.Err? && FindByEmail(us, email).NotFound? ==> r.error == UsernameNotFound(NotFoundMessage)
  {
    match FindByEmail(us, email)
    case NotFound => Err(UsernameNotFound(NotFoundMessage))
    case NonUnique => Err(IncorrectResultSize(NonUniqueResultMessage))
    case Found(u) =>
      if u.email == "" then Err(IllegalArgument(EmptyValuesMessage))
      else Ok(UserDetails(u.email, u.password, Authorities(u.roles)))
  }

  /**
   * `authenticationManager.authenticate(email, password)`: an unknown user
   * and a wrong password are both `BadCredentialsException`; any other
   * failure to load the user is wrapped as an internal authentication error.
   */
  function Authenticate(us: Users, email: string, password: string, matches: (string, string) -> bool)
    : (r: Result<UserDetails, Exception>)
    ensures r.Err? ==> r.error.BadCredentials? || r.error.InternalAuthentication?
  {
    match LoadUserByUsername(us, email)
    case Err(UsernameNotFound(_)) => Err(BadCredentials(BadCredentialsMessage))
    case Err(e) => Err(InternalAuthentication(e.message))
    case Ok(d) => if matches(password, d.password) then Ok(d) else Err(BadCredentials(BadCredentialsMessage))
  }

  /**
   * Authentication succeeds exactly when the email is non-empty, exactly one
   * user has it, and the password matches that user's stored hash.
   */
  lemma AuthenticateIff(us: Users, email: string, password: string, matches: (string, string) -> bool)
    ensures Authenticate(us, email, password, matches).Ok? <==>
      email != "" && exists i :: SoleHolder(us, email, i) && matches(password, us[i].password)
  {
    var l := FindByEmail(us, email);
    if Authenticate(us, email, password, matches).Ok? {
      var u := l.value;
      var i :| 0 <= i < |us| && us[i] == u;
      assert Count(us, WithEmail(email)) == 1;
      forall j | 0 <= j < |us| && us[j].email == email
        ensures j == i
      {
        if j != i {
          CountTwo(us, WithEmail(email), i, j);
        }
      }
      assert SoleHolder(us, email, i);
    }
    if email != "" && exists i :: SoleHolder(us, email, i) && matches(password, us[i].password) {
      var i :| SoleHolder(us, email, i) && matches(password, us[i].password);
      OnlyOne(us, WithEmail(email), i);
    }
  }
}
