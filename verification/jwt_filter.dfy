/**
 * `JwtFilter`: for every request not on the skip list, a `Bearer` token in
 * the `Authorization` header is handed to `checkToken` together with the
 * client address and user agent. A token that is turned away or makes
 * `checkToken` throw ends the request with 401; an accepted one puts the
 * user and the authorities `"ROLE_" + role` into the security context.
 */
module JwtFilter {
  import opened Wrappers
  import opened JavaText
  import opened Errors
  import opened UserEntity
  import opened UserRepository
  import opened TokenEntity
  import opened TokenRepository
  import opened HttpRequest
  import TH = TokenHandler

  const LoginPath: string := "/api/v1/auth/login"
  const SignupPath: string := "/api/v1/auth/signup"
  const ResetPasswordPath: string := "/api/v1/auth/reset-password"
  const RefreshPath: string := "/api/v1/auth/refresh"
  const LogoutPath: string := "/api/v1/auth/logout"

  /** `shouldNotFilter`: the URI contains one of the three public auth paths. */
  predicate ShouldNotFilter(path: string) {
    Contains(path, LoginPath) || Contains(path, SignupPath) || Contains(path, ResetPasswordPath)
  }

  /** The three public auth paths skip the filter. */
  lemma PublicPathsSkipped()
    ensures ShouldNotFilter(LoginPath) && ShouldNotFilter(SignupPath) && ShouldNotFilter(ResetPasswordPath)
  {
    assert OccursAt(LoginPath, LoginPath, 0);
    assert OccursAt(SignupPath, SignupPath, 0);
    assert OccursAt(ResetPasswordPath, ResetPasswordPath, 0);
  }

  /**
   * `p` is not contained in `s` when it fails to match at the start on
   * character `k`, and `s` has no other place where `p`'s first character
   * could start a match.
   */
  lemma NotContained(s: string, p: string, k: int)
    requires 0 < |p| && 0 <= k < |p| && k < |s| && s[k] != p[k]
    requires forall i :: 0 < i <= |s| - |p| ==> s[i] != p[0]
    ensures !Contains(s, p)
  {
  }

  /** Refresh and logout go through the filter. */
  lemma RefreshAndLogoutFiltered()
    ensures !ShouldNotFilter(RefreshPath) && !ShouldNotFilter(LogoutPath)
  {
    assert !Contains(RefreshPath, LoginPath) by {
      NotContained(RefreshPath, LoginPath, 13);
    }
    assert !Contains(RefreshPath, SignupPath) by {
      NotContained(RefreshPath, SignupPath, 13);
    }
    assert !Contains(RefreshPath, ResetPasswordPath);
    assert !Contains(LogoutPath, LoginPath) by {
      NotContained(LogoutPath, LoginPath, 16);
    }
    assert !Contains(LogoutPath, SignupPath) by {
      NotContained(LogoutPath, SignupPath, 13);
    }
    assert !Contains(LogoutPath, ResetPasswordPath);
  }

  /** A header value `getClientIp` takes: present, non-empty and not "unknown" in any case. */
  predicate Usable(h: Option<string>) {
    h.Some? && |h.value| > 0 && !IsUnknownIgnoringCase(h.value)
  }

  /**
   * `if (ip.contains(",")) ip = ip.split(",")[0].trim()`: the first entry of a
   * proxy chain. A value without a comma is kept as it is, untrimmed; one made
   * only of commas splits into an empty array and indexing it throws.
   */
  function FirstHop(ip: string): (r: Result<string, Exception>)
    ensures r.Err? <==> OnlyCommas(ip)
    ensures r.Err? ==> r.error == IndexOutOfBounds(EmptyArrayIndexMessage)
    ensures !HasComma(ip) ==> r == Ok(ip)
    ensures r.Ok? ==> !HasComma(r.value)
    ensures r.Ok? && HasComma(ip) ==>
      exists n :: 0 <= n < |ip| && ip[n] == ',' && ',' !in ip[..n] && r.value == Trim(ip[..n])
  {
    if HasComma(ip) then
      match SplitFirstField(ip)
      case None => Err(IndexOutOfBounds(EmptyArrayIndexMessage))
      case Some(first) =>
        assert ip[..|first|] == first;
        Ok(Trim(first))
    else
      assert !OnlyCommas(ip) by {
        if |ip| > 0 {
          assert ip[0] in ip;
        }
      }
      Ok(ip)
  }

  /**
   * `getClientIp`: the first of X-Forwarded-For and X-Real-IP that is usable,
   * else the remote address, cut down to its first hop.
   */
  function ClientIp(req: Request): (r: Result<string, Exception>)
    ensures Usable(req.forwardedFor) ==> r == FirstHop(req.forwardedFor.value)
    ensures !Usable(req.forwardedFor) && Usable(req.realIp) ==> r == FirstHop(req.realIp.value)
    ensures !Usable(req.forwardedFor) && !Usable(req.realIp) ==> r == FirstHop(req.remoteAddr)
  {
    if Usable(req.forwardedFor) then FirstHop(req.forwardedFor.value)
    else if Usable(req.realIp) then FirstHop(req.realIp.value)
    else FirstHop(req.remoteAddr)
  }

  /**
   * The address `getClientIp` extracts, sent back as the only header of a new
   * request, is extracted unchanged: it is already a single hop.
   */
  lemma ClientIpIdempotent(req: Request, req2: Request)
    requires ClientIp(req).Ok? && Usable(Some(ClientIp(req).value))
    requires req2.forwardedFor == Some(ClientIp(req).value)
    ensures ClientIp(req2) == ClientIp(req)
  {
  }

  /** A usable X-Forwarded-For decides alone: X-Real-IP and the remote address are not read. */
  lemma ForwardedForWins(req: Request, realIp: Option<string>, remoteAddr: string)
    requires Usable(req.forwardedFor)
    ensures ClientIp(req.(realIp := realIp, remoteAddr := remoteAddr)) == ClientIp(req)
  {
  }

  /** `getClientIp` throws exactly when the chosen value is made only of commas. */
  lemma ClientIpFailsOnlyOnCommas(req: Request)
    ensures ClientIp(req).Err? <==>
      if Usable(req.forwardedFor) then OnlyCommas(req.forwardedFor.value)
      else if Usable(req.realIp) then OnlyCommas(req.realIp.value)
      else OnlyCommas(req.remoteAddr)
  {
  }

  const BearerPrefix: string := "Bearer "

  /**
   * The token `doFilterInternal` extracts: present only when the header
   * starts with "Bearer " (case-sensitive), then everything after those seven
   * characters, trimmed.
   */
  function BearerToken(authorization: Option<string>): (r: Option<string>)
    ensures r.Some? <==> authorization.Some? && StartsWith(authorization.value, BearerPrefix)
    ensures r.Some? ==> |r.value| + |BearerPrefix| <= |authorization.value|
    ensures r.Some? && |r.value| > 0 ==> !IsTrimmable(r.value[0]) && !IsTrimmable(r.value[|r.value| - 1])
  {
    match authorization
    case None => None
    case Some(h) => if StartsWith(h, BearerPrefix) then Some(Trim(h[|BearerPrefix|..])) else None
  }

  /** A token without surrounding blanks survives the round trip through the header. */
  lemma BearerRoundTrip(token: string)
    requires |token| > 0 ==> !IsTrimmable(token[0]) && !IsTrimmable(token[|token| - 1])
    ensures BearerToken(Some(BearerPrefix + token)) == Some(token)
  {
    var h := BearerPrefix + token;
    assert h[..|BearerPrefix|] == BearerPrefix;
    assert h[|BearerPrefix|..] == token;
    TrimOfTrimmed(token);
  }

  /**
   * The scheme name is compared case-sensitively, so a "bearer" header
   * passes unauthenticated although HTTP scheme names are case-insensitive
   * (section 11.1 of RFC 9110).
   */
  lemma LowerCaseSchemeIgnored(token: string)
    ensures BearerToken(Some("bearer " + token)).None?
  {
    assert ("bearer " + token)[0] == 'b';
  }

  const DeviceMessage: string := "Access denied: unknown device or mismatched token"

  /** What `JwtFilter` does with a request. */
  datatype Outcome =
    | Skipped                                           // shouldNotFilter: the chain runs, unauthenticated
    | Unauthenticated                                   // no Bearer token: the chain runs, unauthenticated
    | Rejected(message: string)                         // 401 with this body; the chain does not run
    | Authenticated(user: User, authorities: seq<string>) // the chain runs with this principal
  {
    predicate RunsChain() {
      !Rejected?
    }
  }

  /** The status the filter itself sets: 401 on rejection, none (200 so far) otherwise. */
  function Status(o: Outcome): (code: int)
    ensures code == 401 <==> !o.RunsChain()
  {
    if o.Rejected? then 401 else 200
  }

  /** `checkToken` with the tables and the clock fixed. */
  type Checker = (string, string, Option<string>) -> TH.CheckResult

  /**
   * `doFilterInternal` behind `shouldNotFilter`: `check` is `checkToken`
   * (token, client address, user agent). A `RuntimeException` from
   * `getClientIp` or from `checkToken` becomes a 401 carrying its message.
   */
  function DoFilter(req: Request, check: Checker): (r: Outcome)
    ensures r.Skipped? <==> ShouldNotFilter(req.path)
    ensures r.Unauthenticated? <==> !ShouldNotFilter(req.path) && BearerToken(req.authorization).None?
    ensures r.Authenticated? <==>
      !ShouldNotFilter(req.path) && BearerToken(req.authorization).Some? && ClientIp(req).Ok? &&
      check(BearerToken(req.authorization).value, ClientIp(req).value, req.userAgent).Accepted?
    ensures r.Authenticated? ==>
      r.user == check(BearerToken(req.authorization).value, ClientIp(req).value, req.userAgent).user &&
      |r.authorities| == |r.user.roles| &&
      forall i :: 0 <= i < |r.user.roles| ==> r.authorities[i] == AuthorityPrefix + r.user.roles[i]
    ensures r.Rejected? && ClientIp(req).Err? ==> r.message == EmptyArrayIndexMessage
    ensures r.Rejected? && ClientIp(req).Ok? ==>
      match check(BearerToken(req.authorization).value, ClientIp(req).value, req.userAgent)
      case Denied => r.message == DeviceMessage
      case Raised(e) => r.message == e.message
      case Accepted(_) => false
  {
    if ShouldNotFilter(req.path) then Skipped
    else
      match BearerToken(req.authorization)
      case None => Unauthenticated
      case Some(token) =>
        match ClientIp(req)
        case Err(e) => Rejected(e.message)
        case Ok(ip) =>
          match check(token, ip, req.userAgent)
          case Denied => Rejected(DeviceMessage)
          case Raised(e) => Rejected(e.message)
          case Accepted(user) => Authenticated(user, Authorities(user.roles))
  }

  /** `checkToken` as the filter calls it, with the stored tokens and users and the clock. */
  function TokenChecker(parse: string -> TH.ParseResult, ts: Tokens, us: Users, now: Instant): Checker {
    (token: string, ip: string, agent: Option<string>) => TH.CheckToken(parse, ts, us, token, ip, agent, now)
  }

  /** The filter's checker with the user looked up by the token's `id` claim. */
  function TokenCheckerById(parse: string -> TH.ParseResult, ts: Tokens, us: Users, now: Instant): Checker {
    (token: string, ip: string, agent: Option<string>) => TH.CheckTokenById(parse, ts, us, token, ip, agent, now)
  }

  /**
   * Two users sharing a username are both shut out by the filter as written:
   * a live token of either one is answered with a 401.
   */
  lemma SharedUsernameRejected(req: Request, parse: string -> TH.ParseResult, ts: Tokens, us: Users, now: Instant,
                               i: int, j: int)
    requires UserRepository.Valid(us)
    requires 0 <= i < |us| && 0 <= j < |us| && i != j && us[i].username == us[j].username
    requires !ShouldNotFilter(req.path) && BearerToken(req.authorization).Some? && ClientIp(req).Ok?
    requires TH.Screen(parse, ts, BearerToken(req.authorization).value, now).Some?
    requires parse(BearerToken(req.authorization).value).claims.username == us[i].username
    ensures DoFilter(req, TokenChecker(parse, ts, us, now)) == Rejected(NonUniqueResultMessage)
  {
    TH.SharedUsernameLocksOut(parse, ts, us, BearerToken(req.authorization).value, ClientIp(req).value, req.userAgent, now, i, j);
  }

  /**
   * With the lookup by id, a live token signed for a stored user
   * authenticates exactly that user, whatever other users share the name.
   */
  lemma ByIdAuthenticatesOwner(req: Request, parse: string -> TH.ParseResult, sign: TH.Claims -> string,
                               ts: Tokens, us: Users, i: int, issuedAt: Instant, accessTime: int, now: Instant)
    requires UserRepository.Valid(us) && 0 <= i < |us|
    requires var token := sign(TH.AccessClaims(us[i], issuedAt, accessTime));
      parse(token) == TH.Parsed(TH.AccessClaims(us[i], issuedAt, accessTime)) &&
      TH.Screen(parse, ts, token, now).Some? &&
      (|token| > 0 ==> !IsTrimmable(token[0]) && !IsTrimmable(token[|token| - 1])) &&
      req.authorization == Some(BearerPrefix + token)
    requires !ShouldNotFilter(req.path) && ClientIp(req).Ok?
    ensures DoFilter(req, TokenCheckerById(parse, ts, us, now)) == Authenticated(us[i], Authorities(us[i].roles))
  {
    var token := sign(TH.AccessClaims(us[i], issuedAt, accessTime));
    BearerRoundTrip(token);
    TH.IssuedTokenAuthenticatesOwner(parse, sign, ts, us, i, issuedAt, accessTime, ClientIp(req).value, req.userAgent, now);
  }

  /**
   * A request the filter authenticates carried an access token that parses,
   * is stored, and is neither expired nor revoked; the principal is a stored
   * user whose name is the token's `username` claim.
   */
  lemma AuthenticatedMeansLiveToken(req: Request, parse: string -> TH.ParseResult, ts: Tokens, us: Users, now: Instant)
    requires DoFilter(req, TokenChecker(parse, ts, us, now)).Authenticated?
    ensures var token := BearerToken(req.authorization).value;
      parse(token).Parsed? && parse(token).claims.typ == Some(TH.AccessType) && now <= parse(token).claims.expiration &&
      FindByToken(ts, token).Some? && !FindByToken(ts, token).value.IsExpired(now) && !FindByToken(ts, token).value.revoked
    ensures var r := DoFilter(req, TokenChecker(parse, ts, us, now));
      r.user in us && r.user.username == parse(BearerToken(req.authorization).value).claims.username
  {
  }

  /**
   * Although a rejection speaks of an unknown device, the outcome does not
   * depend on the client address or the user agent, as long as an address
   * can be extracted at all.
   */
  lemma FilterIgnoresDevice(req1: Request, req2: Request, parse: string -> TH.ParseResult, ts: Tokens, us: Users, now: Instant)
    requires req1.path == req2.path && req1.authorization == req2.authorization
    requires ClientIp(req1).Ok? && ClientIp(req2).Ok?
    ensures DoFilter(req1, TokenChecker(parse, ts, us, now)) == DoFilter(req2, TokenChecker(parse, ts, us, now))
  {
    var c := TokenChecker(parse, ts, us, now);
    if !ShouldNotFilter(req1.path) && BearerToken(req1.authorization).Some? {
      var token := BearerToken(req1.authorization).value;
      TH.CheckTokenIgnoresDevice(parse, ts, us, token, ClientIp(req1).value, req1.userAgent, ClientIp(req2).value, req2.userAgent, now);
    }
  }

  /**
   * The admin authority `hasRole("ADMIN")` asks for ("ROLE_ADMIN") is granted
   * exactly to a user holding the role string "ADMIN"; the default role
   * "ROLE_USER" never grants "ROLE_USER".
   */
  lemma AdminAuthorityIffAdminRole(user: User)
    ensures "ROLE_ADMIN" in Authorities(user.roles) <==> "ADMIN" in user.roles
    ensures "ROLE_USER" !in Authorities(PrePersist(user.(roles := [])).roles)
  {
    assert AuthorityPrefix + "ADMIN" == "ROLE_ADMIN";
    AuthorityIffRole(user.roles, "ADMIN");
    DefaultRoleDoublePrefix(user.(roles := []));
  }
}
