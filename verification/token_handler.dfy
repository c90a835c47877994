/**
 * `TokenHandler`: building the claims of an access token and checking a
 * presented token. Signing and parsing are parameters: `sign` stands for the
 * HS512 compact serialisation under the server key, `parse` for
 * `parseClaimsJws`, which either yields the claims or fails (bad signature,
 * malformed or unsupported text, empty string, a `type` claim that is not a
 * string). The expiry test `parseClaimsJws` applies is written out here.
 */
module TokenHandler {
  import opened Wrappers
  import opened Store
  import opened Errors
  import opened UserEntity
  import opened UserRepository
  import opened TokenEntity
  import opened TokenRepository

  /** The claims of an access token; `typ` is the `type` claim. */
  datatype Claims = Claims(
    id: UserId,
    username: string,
    roles: seq<string>,
    typ: Option<string>,
    subject: string,
    issuedAt: Instant,
    expiration: Instant)

  datatype ParseResult = ParseFailed | Parsed(claims: Claims)

  const AccessType: string := "ACCESS"
  const Subject: string := "Mobily.cloud"

  /**
   * The claims `createAccessToken(user)` signs at `now`: the user's id, name
   * and role names, type "ACCESS", the fixed subject, issued now and
   * expiring `accessTime` seconds later.
   */
  function AccessClaims(user: User, now: Instant, accessTime: int): (c: Claims)
    ensures c.id == user.id && c.username == user.username && c.roles == user.roles
    ensures c.typ == Some(AccessType) && c.subject == Subject
    ensures c.expiration - c.issuedAt == accessTime && c.issuedAt == now
  {
    Claims(user.id, user.username, user.roles, Some(AccessType), Subject, now, now + accessTime)
  }

  /**
   * `createAccessToken(user)`: the signed text of access claims naming the
   * user, issued now and expiring `accessTime` seconds later.
   */
  function CreateAccessToken(user: User, now: Instant, accessTime: int, sign: Claims -> string): (r: string)
    ensures exists c :: r == sign(c) && c.id == user.id && c.username == user.username && c.roles == user.roles &&
                        c.typ == Some(AccessType) && c.issuedAt == now && c.expiration == now + accessTime
  {
    sign(AccessClaims(user, now, accessTime))
  }

  /** The outcome of `checkToken`: the user, `null`, or an exception that escapes it. */
  datatype CheckResult = Accepted(user: User) | Denied | Raised(error: Exception)

  const UserNotFoundPrefix: string := "User not found: "

  /**
   * The checks `checkToken` makes before it looks the user up: the token
   * parses, is not past its `exp`, is of type "ACCESS", is stored, and its row
   * is neither expired at `now` nor revoked. Yields the claims.
   */
  function Screen(parse: string -> ParseResult, ts: Tokens, token: string, now: Instant): (r: Option<Claims>)
    ensures r.Some? <==> parse(token).Parsed? && parse(token).claims.expiration >= now &&
                         parse(token).claims.typ == Some(AccessType) &&
                         FindByToken(ts, token).Some? &&
                         !FindByToken(ts, token).value.IsExpired(now) && !FindByToken(ts, token).value.revoked
    ensures r.Some? ==> r.value == parse(token).claims
  {
    match parse(token)
    case ParseFailed => None
    case Parsed(c) =>
      if c.expiration < now then None                  // ExpiredJwtException
      else if c.typ != Some(AccessType) then None
      else
        match FindByToken(ts, token)
        case None => None
        case Some(t) => if t.IsExpired(now) || t.revoked then None else Some(c)
  }

  /**
   * `checkToken(token, ip, agent)`: after the screen, the user named by the
   * `username` claim. No such user raises `UsernameNotFoundException`; several
   * make the finder raise. The request's IP and user agent are not consulted.
   */
  function CheckToken(parse: string -> ParseResult, ts: Tokens, us: Users, token: string,
                      requestIp: string, requestAgent: Option<string>, now: Instant): (r: CheckResult)
    ensures r.Denied? <==> Screen(parse, ts, token, now).None?
    ensures r.Accepted? ==> r.user in us && r.user.username == parse(token).claims.username
    ensures r.Raised? ==> r.error.UsernameNotFound? || r.error.IncorrectResultSize?
    ensures Screen(parse, ts, token, now).Some? ==> var name := parse(token).claims.username;
      (r.Accepted? <==> FindByUsername(us, name).Found?) &&
      (FindByUsername(us, name).NotFound? ==> r == Raised(UsernameNotFound(UserNotFoundPrefix + name))) &&
      (FindByUsername(us, name).NonUnique? ==> r == Raised(IncorrectResultSize(NonUniqueResultMessage)))
  {
    match Screen(parse, ts, token, now)
    case None => Denied
    case Some(c) =>
      match FindByUsername(us, c.username)
      case NotFound => Raised(UsernameNotFound(UserNotFoundPrefix + c.username))
      case NonUnique => Raised(IncorrectResultSize(NonUniqueResultMessage))
      case Found(u) => Accepted(u)
  }

  /** The device a request comes from never changes the outcome. */
  lemma CheckTokenIgnoresDevice(parse: string -> ParseResult, ts: Tokens, us: Users, token: string,
                                ip1: string, agent1: Option<string>, ip2: string, agent2: Option<string>, now: Instant)
    ensures CheckToken(parse, ts, us, token, ip1, agent1, now) == CheckToken(parse, ts, us, token, ip2, agent2, now)
  {
  }

  /**
   * Once two users share a username, every token of either of them that
   * passes the screen makes `checkToken` raise: neither can use the API.
   */
  lemma SharedUsernameLocksOut(parse: string -> ParseResult, ts: Tokens, us: Users, token: string,
                               ip: string, agent: Option<string>, now: Instant, i: int, j: int)
    requires UserRepository.Valid(us)
    requires 0 <= i < |us| && 0 <= j < |us| && i != j && us[i].username == us[j].username
    requires Screen(parse, ts, token, now).Some? && parse(token).claims.username == us[i].username
    ensures CheckToken(parse, ts, us, token, ip, agent, now) == Raised(IncorrectResultSize(NonUniqueResultMessage))
  {
    SharedUsernameIsNonUnique(us, i, j);
  }

  /**
   * `checkToken` with the user looked up by the `id` claim, the primary key,
   * instead of the non-unique username.
   */
  function CheckTokenById(parse: string -> ParseResult, ts: Tokens, us: Users, token: string,
                          requestIp: string, requestAgent: Option<string>, now: Instant): (r: CheckResult)
    ensures r.Denied? <==> Screen(parse, ts, token, now).None?
    ensures r.Accepted? ==> r.user in us && r.user.id == parse(token).claims.id
    ensures r.Raised? ==> r.error.UsernameNotFound?
  {
    match Screen(parse, ts, token, now)
    case None => Denied
    case Some(c) =>
      match FindById(us, c.id)
      case None => Raised(UsernameNotFound(UserNotFoundPrefix + c.username))
      case Some(u) => Accepted(u)
  }

  /**
   * With lookup by id, a token issued to a stored user that passes the
   * screen authenticates exactly that user, whatever names others share.
   */
  lemma IssuedTokenAuthenticatesOwner(parse: string -> ParseResult, sign: Claims -> string, ts: Tokens, us: Users,
                                      i: int, issuedAt: Instant, accessTime: int,
                                      ip: string, agent: Option<string>, now: Instant)
    requires UserRepository.Valid(us) && 0 <= i < |us|
    requires parse(sign(AccessClaims(us[i], issuedAt, accessTime))) == Parsed(AccessClaims(us[i], issuedAt, accessTime))
    requires Screen(parse, ts, sign(AccessClaims(us[i], issuedAt, accessTime)), now).Some?
    ensures CheckTokenById(parse, ts, us, sign(AccessClaims(us[i], issuedAt, accessTime)), ip, agent, now) == Accepted(us[i])
  {
    FindByIdFindsRow(us, i);
  }

  /**
   * A token issued and stored for a user with a unique username, still
   * within its lifetime and not revoked, is accepted by `checkToken` when
   * parsing inverts signing.
   */
  lemma IssuedTokenAccepted(parse: string -> ParseResult, sign: Claims -> string, ts: Tokens, us: Users,
                            i: int, k: int, issuedAt: Instant, accessTime: int,
                            ip: string, agent: Option<string>, now: Instant)
    requires 0 <= i < |us| && forall j :: 0 <= j < |us| && us[j].username == us[i].username ==> j == i
    requires TokenRepository.Valid(ts) && 0 <= k < |ts|
    requires ts[k].token == sign(AccessClaims(us[i], issuedAt, accessTime))
    requires parse(ts[k].token) == Parsed(AccessClaims(us[i], issuedAt, accessTime))
    requires issuedAt <= now <= issuedAt + accessTime && !ts[k].IsExpired(now) && !ts[k].revoked
    ensures CheckToken(parse, ts, us, ts[k].token, ip, agent, now) == Accepted(us[i])
  {
    FindByTokenFindsRow(ts, k);
    OnlyOne(us, WithUsername(us[i].username), i);
  }
}
