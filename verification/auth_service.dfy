/**
 * `AuthService`: signup, login, refresh, password reset and logout over the
 * three tables they touch. Every operation is `@Transactional`: when a step
 * fails, the whole operation fails and no table changes. The clock, the
 * configured lifetimes, signing and the password encoder come in `Env`.
 */
module AuthService {
  import opened Wrappers
  import opened Store
  import opened Errors
  import opened UserEntity
  import opened UserRepository
  import opened TokenEntity
  import opened TokenRepository
  import opened RefreshTokenEntity
  import RefreshTokenRepository
  import RT = RefreshTokenServiceImpl
  import UD = UserDetailsServiceConfigImpl
  import TH = TokenHandler

  /** The users, access tokens and refresh tokens. */
  datatype AuthState = AuthState(users: Users, tokens: Tokens, refresh: RefreshTokenRepository.RefreshTokens)

  /**
   * Keys are unique in each table, and every token row belongs to a stored
   * user (the non-null `user_id` foreign key).
   */
  predicate Valid(st: AuthState) {
    UserRepository.Valid(st.users) && TokenRepository.Valid(st.tokens) &&
    RefreshTokenRepository.Valid(st.refresh) &&
    (forall k :: 0 <= k < |st.tokens| ==> FindById(st.users, st.tokens[k].userId).Some?) &&
    (forall k :: 0 <= k < |st.refresh| ==> FindById(st.users, st.refresh[k].userId).Some?)
  }

  /** The request's clock, the configured lifetimes, and the JWT and password primitives. */
  datatype Env = Env(
    now: Instant,
    accessTime: int,
    refreshTime: int,
    sign: TH.Claims -> string,
    encode: string -> string,
    matches: (string, string) -> bool)

  /** `AuthResponseVm`. */
  datatype AuthResponse = AuthResponse(accessToken: string, refreshToken: string)

  /** What an operation returns, with the tables after it. */
  datatype Done<T> = Done(value: T, state: AuthState)

  /**
   * `saveAccessToken`: stores the signed token for the user with both flags
   * clear, created now and expiring `accessTime` seconds later.
   */
  function SaveAccessToken(ts: Tokens, user: User, jwt: string, ip: string, agent: Option<string>, env: Env)
    : (r: Result<Tokens, Exception>)
    ensures r.Ok? <==> forall i :: 0 <= i < |ts| ==> ts[i].token != jwt
    ensures r.Ok? ==> |r.value| == |ts| + 1 && r.value[..|ts|] == ts
    ensures r.Ok? ==> var t := r.value[|ts|];
      t.token == jwt && t.userId == user.id && !t.expired && !t.revoked &&
      t.createdAt == env.now && t.expiryDate == env.now + env.accessTime &&
      t.ipAddress == ip && t.userAgent == agent
    ensures r.Ok? && TokenRepository.Valid(ts) ==> TokenRepository.Valid(r.value)
    ensures r.Err? ==> r.error.DataIntegrityViolation?
  {
    var t := NewToken(jwt, user.id, env.now, env.now + env.accessTime, ip, agent);
    var r := Insert(ts, t);
    assert r.Ok? ==> r.value[..|ts|] == ts;
    r
  }

  /**
   * `next` is `ts` with one row appended: `jwt`, owned by the user, both
   * flags clear, expiring `accessTime` seconds after now.
   */
  predicate AccessIssued(ts: Tokens, next: Tokens, userId: UserId, jwt: string, env: Env) {
    |next| == |ts| + 1 && next[..|ts|] == ts &&
    next[|ts|].token == jwt && next[|ts|].userId == userId &&
    !next[|ts|].expired && !next[|ts|].revoked && next[|ts|].expiryDate == env.now + env.accessTime
  }

  /**
   * `next` is `rs` with one refresh-token row appended: `token`, owned by the
   * user, not expired, expiring `refreshTime` seconds after now.
   */
  predicate RefreshIssued(rs: RefreshTokenRepository.RefreshTokens, next: RefreshTokenRepository.RefreshTokens,
                          userId: UserId, token: string, env: Env) {
    |next| == |rs| + 1 && next[..|rs|] == rs &&
    next[|rs|].token == token && next[|rs|].userId == userId &&
    !next[|rs|].expired && next[|rs|].expiryDate == env.now + env.refreshTime
  }

  /** Neither the access token nor the drawn refresh token is stored yet. */
  predicate FreshTokens(st: AuthState, access: string, picks: seq<int>)
    requires RT.ValidPicks(picks)
  {
    (forall i :: 0 <= i < |st.tokens| ==> st.tokens[i].token != access) &&
    (forall i :: 0 <= i < |st.refresh| ==> st.refresh[i].token != RT.ReadableToken(picks))
  }

  function Revoke(t: Token): Token {
    t.(expired := true, revoked := true)
  }

  /**
   * `revokeAllUserAccessTokens`: every row of the user with both flags clear
   * gets both flags set; no other row changes.
   */
  function RevokeAllUserAccessTokens(ts: Tokens, userId: UserId): (r: Tokens)
    ensures |r| == |ts|
    ensures forall i :: 0 <= i < |ts| ==>
      r[i] == if ts[i].userId == userId && !ts[i].expired && !ts[i].revoked then ts[i].(expired := true, revoked := true) else ts[i]
    ensures FindAllValidTokenByUser(r, userId) == []
    ensures TokenRepository.Valid(ts) ==> TokenRepository.Valid(r)
  {
    var r := Update(ts, ValidFor(userId), Revoke);
    assert TokenRepository.Valid(ts) ==> TokenRepository.Valid(r) by {
      if TokenRepository.Valid(ts) { UpdateUniqueBy(ts, ValidFor(userId), Revoke, TokenKey); }
    }
    r
  }

  /** Revoking is idempotent. */
  lemma RevokeAllIdempotent(ts: Tokens, userId: UserId)
    ensures RevokeAllUserAccessTokens(RevokeAllUserAccessTokens(ts, userId), userId) == RevokeAllUserAccessTokens(ts, userId)
  {
  }

  const AlreadyExistsPrefix: string := "Username already exists: "

  /**
   * `signup(user, ip, agent)`: refused when the email is taken; otherwise the
   * user is stored with the encoded password (and the default role when it
   * has none), and an access token and a refresh token are issued and stored.
   */
  function Signup(st: AuthState, request: User, ip: string, agent: Option<string>, env: Env, picks: seq<int>)
    : (r: Result<Done<AuthResponse>, Exception>)
    requires RT.ValidPicks(picks)
    ensures FindByEmail(st.users, request.email).Found? ==>
      r == Err(UserAlreadyExists(AlreadyExistsPrefix + request.username))
    ensures FindByEmail(st.users, request.email).NonUnique? ==>
      r == Err(IncorrectResultSize(NonUniqueResultMessage))
    ensures r.Ok? ==> FindByEmail(st.users, request.email).NotFound?
    ensures r.Err? && FindByEmail(st.users, request.email).NotFound? ==> r.error.DataIntegrityViolation?
    ensures r.Ok? ==> |r.value.state.users| == |st.users| + 1 && r.value.state.users[..|st.users|] == st.users
    ensures r.Ok? ==> var u := r.value.state.users[|st.users|];
      u == PrePersist(request.(password := env.encode(request.password))).(id := u.id) &&
      (forall i :: 0 <= i < |st.users| ==> st.users[i].id != u.id) &&
      FindByEmail(r.value.state.users, request.email) == Found(u)
    ensures r.Ok? ==> var u := r.value.state.users[|st.users|];
      r.value.value.accessToken == TH.CreateAccessToken(u, env.now, env.accessTime, env.sign) &&
      r.value.value.refreshToken == RT.ReadableToken(picks) &&
      AccessIssued(st.tokens, r.value.state.tokens, u.id, r.value.value.accessToken, env) &&
      RefreshIssued(st.refresh, r.value.state.refresh, u.id, r.value.value.refreshToken, env)
    ensures r.Ok? && Valid(st) ==> Valid(r.value.state)
  {
    match FindByEmail(st.users, request.email)
    case Found(_) => Err(UserAlreadyExists(AlreadyExistsPrefix + request.username))
    case NonUnique => Err(IncorrectResultSize(NonUniqueResultMessage))
    case NotFound =>
      var (saved, users) := Persist(st.users, request.(password := env.encode(request.password)));
      var access := TH.CreateAccessToken(saved, env.now, env.accessTime, env.sign);
      var created :- RT.CreateRefreshToken(st.refresh, saved, env.now, env.refreshTime, picks);
      var tokens :- SaveAccessToken(st.tokens, saved, access, ip, agent, env);
      var next := AuthState(users, tokens, created.table);
      SignupKeepsValid(st, saved, users, tokens, created.table);
      SignupEmailUnique(st.users, saved);
      Ok(Done(AuthResponse(access, created.row.token), next))
  }

  /** The new user is the only one with its email. */
  lemma SignupEmailUnique(us: Users, saved: User)
    requires FindByEmail(us, saved.email).NotFound?
    ensures FindByEmail(us + [saved], saved.email) == Found(saved)
  {
    var s := us + [saved];
    OnlyOne(s, WithEmail(saved.email), |us|);
  }

  /** Signup's three appends keep the state valid. */
  lemma SignupKeepsValid(st: AuthState, saved: User, users: Users, tokens: Tokens, refresh: RefreshTokenRepository.RefreshTokens)
    requires users == st.users + [saved]
    requires forall i :: 0 <= i < |st.users| ==> st.users[i].id != saved.id
    requires |tokens| == |st.tokens| + 1 && tokens[..|st.tokens|] == st.tokens && tokens[|st.tokens|].userId == saved.id
    requires |refresh| == |st.refresh| + 1 && refresh[..|st.refresh|] == st.refresh && refresh[|st.refresh|].userId == saved.id
    requires TokenRepository.Valid(st.tokens) ==> TokenRepository.Valid(tokens)
    requires RefreshTokenRepository.Valid(st.refresh) ==> RefreshTokenRepository.Valid(refresh)
    ensures Valid(st) ==> Valid(AuthState(users, tokens, refresh))
  {
    if Valid(st) {
      assert FindById(users, saved.id).Some? by {
        assert users[|st.users|] == saved;
      }
      forall k | 0 <= k < |tokens|
        ensures FindById(users, tokens[k].userId).Some?
      {
        if k < |st.tokens| {
          assert tokens[k] == st.tokens[k];
          FindByIdAppend(st.users, saved, tokens[k].userId);
        }
      }
      forall k | 0 <= k < |refresh|
        ensures FindById(users, refresh[k].userId).Some?
      {
        if k < |st.refresh| {
          assert refresh[k] == st.refresh[k];
          FindByIdAppend(st.users, saved, refresh[k].userId);
        }
      }
    }
  }

  const LoginNotFoundPrefix: string := "User not found: "

  /**
   * `login(request, ip, agent)`: authenticates email and password, then
   * issues and stores an access token and a refresh token for the user.
   */
  function Login(st: AuthState, email: string, password: string, ip: string, agent: Option<string>,
                 env: Env, picks: seq<int>): (r: Result<Done<AuthResponse>, Exception>)
    requires RT.ValidPicks(picks)
    ensures UD.Authenticate(st.users, email, password, env.matches).Err? ==>
      r == Err(UD.Authenticate(st.users, email, password, env.matches).error)
    ensures r.Ok? ==> UD.Authenticate(st.users, email, password, env.matches).Ok?
    ensures r.Ok? ==> r.value.state.users == st.users
    ensures r.Ok? ==> var u := FindByEmail(st.users, email).value;
      r.value.value.accessToken == TH.CreateAccessToken(u, env.now, env.accessTime, env.sign) &&
      r.value.value.refreshToken == RT.ReadableToken(picks) &&
      AccessIssued(st.tokens, r.value.state.tokens, u.id, r.value.value.accessToken, env) &&
      RefreshIssued(st.refresh, r.value.state.refresh, u.id, r.value.value.refreshToken, env)
    ensures UD.Authenticate(st.users, email, password, env.matches).Ok? ==>
      FindByEmail(st.users, email).Found? &&
      (r.Ok? <==> FreshTokens(st, TH.CreateAccessToken(FindByEmail(st.users, email).value, env.now, env.accessTime, env.sign), picks))
    ensures r.Err? ==> !r.error.InvalidCredentials? && !r.error.IncorrectResultSize?
    ensures r.Err? && UD.Authenticate(st.users, email, password, env.matches).Ok? ==> r.error.DataIntegrityViolation?
    ensures r.Ok? && Valid(st) ==> Valid(r.value.state)
  {
    var _ :- UD.Authenticate(st.users, email, password, env.matches);
    match FindByEmail(st.users, email)
    case NotFound => Err(InvalidCredentials(LoginNotFoundPrefix + email))
    case NonUnique => Err(IncorrectResultSize(NonUniqueResultMessage))
    case Found(u) =>
      var access := TH.CreateAccessToken(u, env.now, env.accessTime, env.sign);
      var created :- RT.CreateRefreshToken(st.refresh, u, env.now, env.refreshTime, picks);
      var tokens :- SaveAccessToken(st.tokens, u, access, ip, agent, env);
      IssueKeepsValid(st, u, tokens, created.table);
      assert created.table[|st.refresh|].token == created.row.token;
      Ok(Done(AuthResponse(access, created.row.token), AuthState(st.users, tokens, created.table)))
  }

  /** Appending a token row and a refresh-token row of a stored user keeps the state valid. */
  lemma IssueKeepsValid(st: AuthState, u: User, tokens: Tokens, refresh: RefreshTokenRepository.RefreshTokens)
    requires u in st.users
    requires |tokens| == |st.tokens| + 1 && tokens[..|st.tokens|] == st.tokens && tokens[|st.tokens|].userId == u.id
    requires |refresh| == |st.refresh| + 1 && refresh[..|st.refresh|] == st.refresh && refresh[|st.refresh|].userId == u.id
    requires TokenRepository.Valid(st.tokens) ==> TokenRepository.Valid(tokens)
    requires RefreshTokenRepository.Valid(st.refresh) ==> RefreshTokenRepository.Valid(refresh)
    ensures Valid(st) ==> Valid(AuthState(st.users, tokens, refresh))
  {
    if Valid(st) {
      forall k | 0 <= k < |tokens|
        ensures FindById(st.users, tokens[k].userId).Some?
      {
        if k < |st.tokens| {
          assert tokens[k] == st.tokens[k];
        }
      }
      forall k | 0 <= k < |refresh|
        ensures FindById(st.users, refresh[k].userId).Some?
      {
        if k < |st.refresh| {
          assert refresh[k] == st.refresh[k];
        }
      }
    }
  }

  /**
   * Two logins of one user in the same second sign identical claims, so the
   * second access token equals the first and its save breaks the unique
   * column: the second login fails, whatever refresh token it draws.
   */
  lemma SecondLoginInSameSecondFails(st: AuthState, email: string, password: string,
                                     ip: string, agent: Option<string>, ip2: string, agent2: Option<string>,
                                     env: Env, picks: seq<int>, picks2: seq<int>)
    requires RT.ValidPicks(picks) && RT.ValidPicks(picks2)
    requires Login(st, email, password, ip, agent, env, picks).Ok?
    ensures var next := Login(st, email, password, ip, agent, env, picks).value.state;
      Login(next, email, password, ip2, agent2, env, picks2).Err? &&
      Login(next, email, password, ip2, agent2, env, picks2).error.DataIntegrityViolation?
  {
    var first := Login(st, email, password, ip, agent, env, picks).value;
    var next := first.state;
    var u := FindByEmail(st.users, email).value;
    var access := TH.CreateAccessToken(u, env.now, env.accessTime, env.sign);
    assert next.users == st.users;
    assert next.tokens[|st.tokens|].token == access;
    var second := Login(next, email, password, ip2, agent2, env, picks2);
    match RT.CreateRefreshToken(next.refresh, u, env.now, env.refreshTime, picks2)
    case Err(e) =>
      assert second == Err(e);
    case Ok(created) =>
      assert SaveAccessToken(next.tokens, u, access, ip2, agent2, env).Err?;
  }

  /**
   * The access token a login hands out passes `checkToken` for the user
   * who logged in, while it lives, when parsing inverts signing and no one
   * else shares the user's name.
   */
  lemma LoginTokenAccepted(st: AuthState, email: string, password: string, ip: string, agent: Option<string>,
                           env: Env, picks: seq<int>, parse: string -> TH.ParseResult,
                           requestIp: string, requestAgent: Option<string>, now: Instant)
    requires Valid(st) && RT.ValidPicks(picks) && Login(st, email, password, ip, agent, env, picks).Ok?
    requires var u := FindByEmail(st.users, email).value;
      FindByUsername(st.users, u.username).Found? &&
      parse(TH.CreateAccessToken(u, env.now, env.accessTime, env.sign)) == TH.Parsed(TH.AccessClaims(u, env.now, env.accessTime))
    requires env.now <= now <= env.now + env.accessTime
    ensures var done := Login(st, email, password, ip, agent, env, picks).value;
      TH.CheckToken(parse, done.state.tokens, done.state.users, done.value.accessToken, requestIp, requestAgent, now)
        == TH.Accepted(FindByEmail(st.users, email).value)
  {
    var done := Login(st, email, password, ip, agent, env, picks).value;
    var u := FindByEmail(st.users, email).value;
    IssuedAccessAccepted(parse, st.tokens, done.state.tokens, st.users, u, done.value.accessToken, env,
                         requestIp, requestAgent, now);
  }

  /**
   * The row an issue appends carries a token that the filter accepts for its
   * user while the token's lifetime lasts.
   */
  lemma IssuedAccessAccepted(parse: string -> TH.ParseResult, before: Tokens, ts: Tokens, users: Users, u: User,
                             jwt: string, env: Env, requestIp: string, requestAgent: Option<string>, now: Instant)
    requires AccessIssued(before, ts, u.id, jwt, env) && TokenRepository.Valid(ts)
    requires u in users && FindByUsername(users, u.username).Found?
    requires parse(jwt) == TH.Parsed(TH.AccessClaims(u, env.now, env.accessTime))
    requires env.now <= now <= env.now + env.accessTime
    ensures TH.CheckToken(parse, ts, users, jwt, requestIp, requestAgent, now) == TH.Accepted(u)
  {
    FindByTokenFindsRow(ts, |before|);
    assert TH.Screen(parse, ts, jwt, now).Some?;
  }

  /**
   * A login leaves every earlier session alone: each stored access token
   * passes or fails the screen exactly as it did before.
   */
  lemma LoginKeepsEarlierTokens(st: AuthState, email: string, password: string, ip: string, agent: Option<string>,
                                env: Env, picks: seq<int>, parse: string -> TH.ParseResult, k: int, now: Instant)
    requires Valid(st) && RT.ValidPicks(picks) && Login(st, email, password, ip, agent, env, picks).Ok?
    requires 0 <= k < |st.tokens|
    ensures var next := Login(st, email, password, ip, agent, env, picks).value.state;
      TH.Screen(parse, next.tokens, st.tokens[k].token, now) == TH.Screen(parse, st.tokens, st.tokens[k].token, now)
  {
    var next := Login(st, email, password, ip, agent, env, picks).value.state;
    assert next.tokens[k] == st.tokens[k];
    FindByTokenFindsRow(next.tokens, k);
    FindByTokenFindsRow(st.tokens, k);
  }

  const RefreshRejectedMessage: string := "Refresh token is invalid or expired"

  /**
   * `refresh(value, ip, agent)`: refused unless the refresh token is valid
   * now; otherwise every live access token of its owner is revoked and a new
   * one is issued and stored. The same refresh token is handed back.
   */
  function Refresh(st: AuthState, value: string, ip: string, agent: Option<string>, env: Env)
    : (r: Result<Done<AuthResponse>, Exception>)
    requires Valid(st)
    ensures !RT.IsValid(st.refresh, value, env.now) ==> r == Err(TokenExpired(RefreshRejectedMessage))
    ensures r.Err? && RT.IsValid(st.refresh, value, env.now) ==> r.error.DataIntegrityViolation?
    ensures r.Ok? ==> r.value.value.refreshToken == value
    ensures r.Ok? ==> r.value.state.users == st.users && r.value.state.refresh == st.refresh
    ensures r.Ok? ==> |r.value.state.tokens| == |st.tokens| + 1
    ensures r.Ok? ==> var owner := RT.GetByToken(st.refresh, value).value.userId;
      FindAllValidTokenByUser(r.value.state.tokens, owner) == [r.value.state.tokens[|st.tokens|]] &&
      AccessIssued(RevokeAllUserAccessTokens(st.tokens, owner), r.value.state.tokens, owner, r.value.value.accessToken, env)
    ensures r.Ok? ==> var owner := FindById(st.users, RT.GetByToken(st.refresh, value).value.userId);
      owner.Some? && r.value.value.accessToken == TH.CreateAccessToken(owner.value, env.now, env.accessTime, env.sign)
    ensures r.Ok? ==> Valid(r.value.state)
  {
    if !RT.IsValid(st.refresh, value, env.now) then Err(TokenExpired(RefreshRejectedMessage))
    else
      var rt := RT.GetByToken(st.refresh, value).value;   // a valid token is always found
      var user := FindById(st.users, rt.userId).value;
      var revoked := RevokeAllUserAccessTokens(st.tokens, user.id);
      var access := TH.CreateAccessToken(user, env.now, env.accessTime, env.sign);
      var tokens :- SaveAccessToken(revoked, user, access, ip, agent, env);
      RefreshLeavesOneLiveToken(revoked, tokens, user.id);
      RefreshKeepsValid(st, revoked, tokens, user);
      Ok(Done(AuthResponse(access, value), st.(tokens := tokens)))
  }

  /** After revoking, the appended row is the owner's only live token. */
  lemma RefreshLeavesOneLiveToken(revoked: Tokens, tokens: Tokens, userId: UserId)
    requires FindAllValidTokenByUser(revoked, userId) == []
    requires |tokens| == |revoked| + 1 && tokens[..|revoked|] == revoked
    requires tokens[|revoked|].userId == userId && !tokens[|revoked|].expired && !tokens[|revoked|].revoked
    ensures FindAllValidTokenByUser(tokens, userId) == [tokens[|revoked|]]
  {
    assert tokens == revoked + [tokens[|revoked|]];
    FilterAppend(revoked, tokens[|revoked|], ValidFor(userId));
  }

  lemma RefreshKeepsValid(st: AuthState, revoked: Tokens, tokens: Tokens, user: User)
    requires Valid(st) && user in st.users
    requires |revoked| == |st.tokens| && forall i :: 0 <= i < |st.tokens| ==> revoked[i].userId == st.tokens[i].userId
    requires TokenRepository.Valid(tokens)
    requires |tokens| == |revoked| + 1 && tokens[..|revoked|] == revoked && tokens[|revoked|].userId == user.id
    ensures Valid(st.(tokens := tokens))
  {
    forall k | 0 <= k < |tokens|
      ensures FindById(st.users, tokens[k].userId).Some?
    {
      if k < |revoked| {
        assert tokens[k] == revoked[k];
      }
    }
  }

  /**
   * Once `refresh` has run, every access token its owner held before is
   * turned away by `checkToken`'s screen; only the new one is live.
   */
  lemma RefreshRetiresOldTokens(st: AuthState, value: string, ip: string, agent: Option<string>, env: Env,
                                parse: string -> TH.ParseResult, k: int, now: Instant)
    requires Valid(st) && Refresh(st, value, ip, agent, env).Ok?
    requires 0 <= k < |st.tokens| && st.tokens[k].userId == RT.GetByToken(st.refresh, value).value.userId
    ensures TH.Screen(parse, Refresh(st, value, ip, agent, env).value.state.tokens, st.tokens[k].token, now).None?
  {
    var tokens := Refresh(st, value, ip, agent, env).value.state.tokens;
    var owner := RT.GetByToken(st.refresh, value).value.userId;
    assert tokens[k].token == st.tokens[k].token;
    FindByTokenFindsRow(tokens, k);
    assert tokens[k].expired || tokens[k].revoked by {
      if !tokens[k].expired && !tokens[k].revoked {
        assert false;
      }
    }
  }

  const ResetNotFoundPrefix: string := "User with email "
  const ResetNotFoundSuffix: string := " not found"
  const SamePasswordMessage: string := "New password must be different from the old one"

  /**
   * `resetPassword(username, newPassword)`: the one user with that name gets
   * the encoded new password, unless it matches the current one. No old
   * password or token is asked for, and no session is ended.
   */
  function ResetPassword(st: AuthState, username: string, newPassword: string, env: Env)
    : (r: Result<Done<bool>, Exception>)
    ensures FindByUsername(st.users, username).NotFound? ==>
      r == Err(UserNotFound(ResetNotFoundPrefix + username + ResetNotFoundSuffix))
    ensures r.Ok? <==> FindByUsername(st.users, username).Found? &&
                       !env.matches(newPassword, FindByUsername(st.users, username).value.password)
    ensures r.Ok? ==> r.value.value && r.value.state.tokens == st.tokens && r.value.state.refresh == st.refresh
    ensures r.Ok? ==> var u := FindByUsername(st.users, username).value;
      |r.value.state.users| == |st.users| &&
      forall i :: 0 <= i < |st.users| ==>
        r.value.state.users[i] == if st.users[i].id == u.id then u.(password := env.encode(newPassword)) else st.users[i]
    ensures FindByUsername(st.users, username).NonUnique? ==> r == Err(IncorrectResultSize(NonUniqueResultMessage))
    ensures r.Err? && FindByUsername(st.users, username).Found? ==> r.error == IllegalArgument(SamePasswordMessage)
    ensures r.Ok? && Valid(st) ==> Valid(r.value.state)
  {
    match FindByUsername(st.users, username)
    case NotFound => Err(UserNotFound(ResetNotFoundPrefix + username + ResetNotFoundSuffix))
    case NonUnique => Err(IncorrectResultSize(NonUniqueResultMessage))
    case Found(u) =>
      if env.matches(newPassword, u.password) then Err(IllegalArgument(SamePasswordMessage))
      else
        var users := Replace(st.users, u.(password := env.encode(newPassword)));
        assert Valid(st) ==> Valid(st.(users := users)) by {
          if Valid(st) {
            forall k | 0 <= k < |st.tokens|
              ensures FindById(users, st.tokens[k].userId).Some?
            {
              FindByIdReplace(st.users, u.(password := env.encode(newPassword)), st.tokens[k].userId);
            }
            forall k | 0 <= k < |st.refresh|
              ensures FindById(users, st.refresh[k].userId).Some?
            {
              FindByIdReplace(st.users, u.(password := env.encode(newPassword)), st.refresh[k].userId);
            }
          }
        }
        Ok(Done(true, st.(users := users)))
  }

  /** `resetPassword` never answers `false`: it returns `true` or raises. */
  lemma ResetPasswordNeverFalse(st: AuthState, username: string, newPassword: string, env: Env)
    ensures ResetPassword(st, username, newPassword, env).Ok? ==> ResetPassword(st, username, newPassword, env).value.value
  {
  }

  /**
   * After a reset, the user (the only holder of their email) signs in with a
   * password exactly when the encoder matches it against the new hash: the
   * new password works when the encoder is sound, and the old one stops
   * working unless it matches the new hash too.
   */
  lemma ResetThenAuthenticate(st: AuthState, username: string, newPassword: string, env: Env, password: string)
    requires Valid(st) && ResetPassword(st, username, newPassword, env).Ok?
    requires var u := FindByUsername(st.users, username).value;
      u.email != "" && FindByEmail(st.users, u.email).Found?
    ensures var u := FindByUsername(st.users, username).value;
      var next := ResetPassword(st, username, newPassword, env).value.state;
      UD.Authenticate(next.users, u.email, password, env.matches).Ok? <==> env.matches(password, env.encode(newPassword))
  {
    var u := FindByUsername(st.users, username).value;
    var next := ResetPassword(st, username, newPassword, env).value.state;
    var i :| 0 <= i < |st.users| && st.users[i] == u;
    assert next.users[i] == u.(password := env.encode(newPassword));
    forall j | 0 <= j < |next.users| && next.users[j].email == u.email
      ensures j == i
    {
      assert st.users[j].email == u.email;
      assert st.users[j] == FindByEmail(st.users, u.email).value == u;
    }
    assert UD.SoleHolder(next.users, u.email, i);
    UD.AuthenticateIff(next.users, u.email, password, env.matches);
  }

  /**
   * `logout(user)`: revokes the user's live access tokens and deletes the
   * user's refresh tokens; nobody else's rows change.
   */
  function Logout(st: AuthState, user: User): (r: AuthState)
    ensures r.users == st.users
    ensures r.tokens == RevokeAllUserAccessTokens(st.tokens, user.id)
    ensures forall i :: 0 <= i < |r.refresh| ==> r.refresh[i] in st.refresh && r.refresh[i].userId != user.id
    ensures forall i :: 0 <= i < |st.refresh| && st.refresh[i].userId != user.id ==> st.refresh[i] in r.refresh
    ensures Valid(st) ==> Valid(r)
  {
    var r := AuthState(st.users, RevokeAllUserAccessTokens(st.tokens, user.id), RT.DeleteByUser(st.refresh, user));
    assert Valid(st) ==> Valid(r) by {
      if Valid(st) {
        forall k | 0 <= k < |r.refresh|
          ensures FindById(st.users, r.refresh[k].userId).Some?
        {
          var j :| 0 <= j < |st.refresh| && st.refresh[j] == r.refresh[k];
        }
      }
    }
    r
  }

  lemma LogoutIdempotent(st: AuthState, user: User)
    ensures Logout(Logout(st, user), user) == Logout(st, user)
  {
    var once := Logout(st, user);
    FilterAll(once.refresh, RefreshTokenRepository.NotOwnedBy(user.id));
  }

  /**
   * After `logout`, none of the user's access tokens passes `checkToken`'s
   * screen and none of the user's former refresh tokens can be refreshed.
   */
  lemma LogoutEndsSessions(st: AuthState, user: User, parse: string -> TH.ParseResult, now: Instant,
                           k: int, m: int, ip: string, agent: Option<string>, env: Env)
    requires Valid(st)
    requires 0 <= k < |st.tokens| && st.tokens[k].userId == user.id
    requires 0 <= m < |st.refresh| && st.refresh[m].userId == user.id
    ensures TH.Screen(parse, Logout(st, user).tokens, st.tokens[k].token, now).None?
    ensures Refresh(Logout(st, user), st.refresh[m].token, ip, agent, env) == Err(TokenExpired(RefreshRejectedMessage))
  {
    var after := Logout(st, user);
    FindByTokenFindsRow(after.tokens, k);
    RT.DeletedTokensAreGone(st.refresh, user, m, env.now);
  }
}
