/**
 * `AuthController`: its own copy of `getClientIp`, the login endpoint that
 * feeds it to the service, and the response `resetPassword` builds from the
 * service's boolean.
 */
module AuthController {
  import opened Wrappers
  import opened JavaText
  import opened Errors
  import opened HttpRequest
  import opened AuthService
  import JF = JwtFilter
  import RT = RefreshTokenServiceImpl
  import GEH = GlobalExceptionHandler
  import UserRepository
  import RL = Bucket4jRateLimitFilter

  /** The test both header steps of `getClientIp` apply to the current value. */
  predicate Skip(ip: Option<string>) {
    ip.None? || |ip.value| == 0 || IsUnknownIgnoringCase(ip.value)
  }

  /**
   * `getClientIp`, step by step as the controller writes it: the current
   * value is replaced by X-Real-IP, then by the remote address, whenever it is
   * null, empty or "unknown"; a value with a comma is cut to its trimmed first
   * field.
   */
  function ClientIp(req: Request): (r: Result<string, Exception>)
    ensures r.Err? ==> r.error == IndexOutOfBounds(EmptyArrayIndexMessage)
    ensures r.Ok? ==> !HasComma(r.value)
  {
    var ip0 := req.forwardedFor;
    var ip1 := if Skip(ip0) then req.realIp else ip0;
    var ip2 := if Skip(ip1) then req.remoteAddr else ip1.value;
    if HasComma(ip2) then
      match SplitFirstField(ip2)
      case None => Err(IndexOutOfBounds(EmptyArrayIndexMessage))
      case Some(first) => Ok(Trim(first))
    else Ok(ip2)
  }

  /** The controller's copy and the filter's copy of `getClientIp` agree on every request. */
  lemma ClientIpAgreesWithFilter(req: Request)
    ensures ClientIp(req) == JF.ClientIp(req)
  {
    var ip0 := req.forwardedFor;
    var ip1 := if Skip(ip0) then req.realIp else ip0;
    var ip2 := if Skip(ip1) then req.remoteAddr else ip1.value;
    assert Skip(ip0) <==> !JF.Usable(req.forwardedFor);
    if HasComma(ip2) && SplitFirstField(ip2).Some? {
      assert ip2[..|SplitFirstField(ip2).value|] == SplitFirstField(ip2).value;
    }
  }

  /** `POST /login`: the client address, then `authService.login`. */
  function Login(st: AuthState, req: Request, email: string, password: string, env: Env, picks: seq<int>)
    : (r: Result<Done<AuthResponse>, Exception>)
    requires RT.ValidPicks(picks)
    ensures ClientIp(req).Err? ==> r == Err(ClientIp(req).error)
    ensures ClientIp(req).Ok? ==> r == AuthService.Login(st, email, password, ClientIp(req).value, req.userAgent, env, picks)
  {
    var ip :- ClientIp(req);
    AuthService.Login(st, email, password, ip, req.userAgent, env, picks)
  }

  /**
   * A proxy chain header made only of commas makes the controller's own
   * address extraction fail before the credentials are looked at, with an
   * exception the handler table maps to 500. In the deployed chain the
   * rate-limit filter reads the same header first and fails on it
   * (`CommaOnlyForwardedForStopsRateLimiter`), so the request never gets here.
   */
  lemma CommaOnlyForwardedForBreaksLogin(st: AuthState, req: Request, email: string, password: string,
                                          env: Env, picks: seq<int>)
    requires RT.ValidPicks(picks)
    requires req.forwardedFor == Some(",")
    ensures Login(st, req, email, password, env, picks) == Err(IndexOutOfBounds(EmptyArrayIndexMessage))
    ensures GEH.Handle(Login(st, req, email, password, env, picks).error, req.path).status == GEH.InternalServerError
  {
    assert !IsUnknownIgnoringCase(",");
    assert OnlyCommas(",");
    ClientIpAgreesWithFilter(req);
  }

  /**
   * The rate-limit filter runs for every path and computes its client key
   * before anything else, so a comma-only proxy chain header fails there,
   * outside the reach of the exception handler, whatever the bucket state.
   */
  lemma CommaOnlyForwardedForStopsRateLimiter(routes: RL.Routes, cache: RL.Cache, req: Request,
                                              refilled: nat, waitNanos: nat)
    requires req.forwardedFor == Some(",")
    ensures RL.DoFilter(routes, cache, req, refilled, waitNanos) == Err(IndexOutOfBounds(EmptyArrayIndexMessage))
  {
    assert OnlyCommas(",");
  }

  /** A response status with a text body. */
  datatype Reply = Reply(status: int, body: string)

  const ResetDoneText: string := "Password reset successfully."
  const ResetFailedText: string := "Failed to reset password."

  /** The body `resetPassword` sends for the service's answer. */
  function ResetPasswordReply(success: bool): (r: Reply)
    ensures r.status == 200 <==> success
    ensures r.status == 400 <==> !success
  {
    if success then Reply(200, ResetDoneText) else Reply(400, ResetFailedText)
  }

  /** `POST /reset-password`. */
  function ResetPassword(st: AuthState, username: string, newPassword: string, env: Env)
    : (r: Result<Done<Reply>, Exception>)
    ensures r.Ok? <==> AuthService.ResetPassword(st, username, newPassword, env).Ok?
    ensures r.Ok? ==> r.value.state == AuthService.ResetPassword(st, username, newPassword, env).value.state
  {
    var done :- AuthService.ResetPassword(st, username, newPassword, env);
    Ok(Done(ResetPasswordReply(done.value), done.state))
  }

  /**
   * The 400 branch is dead: the service answers `true` or throws. A reused
   * password ends as a 500, an unknown name as a 404.
   */
  lemma ResetPasswordNeverBadRequest(st: AuthState, username: string, newPassword: string, env: Env, path: string)
    ensures ResetPassword(st, username, newPassword, env).Ok? ==>
      ResetPassword(st, username, newPassword, env).value.value == Reply(200, ResetDoneText)
    ensures ResetPassword(st, username, newPassword, env).Err? ==>
      GEH.Handle(ResetPassword(st, username, newPassword, env).error, path).status in {GEH.NotFound, GEH.InternalServerError}
  {
    if AuthService.ResetPassword(st, username, newPassword, env).Ok? {
      ResetPasswordNeverFalse(st, username, newPassword, env);
    }
  }

  /** Sending the current password again is answered 500 with the generic text, not with a 400. */
  lemma PasswordReuseIsServerError(st: AuthState, username: string, newPassword: string, env: Env, path: string)
    requires UserRepository.FindByUsername(st.users, username).Found?
    requires env.matches(newPassword, UserRepository.FindByUsername(st.users, username).value.password)
    ensures ResetPassword(st, username, newPassword, env).Err?
    ensures GEH.Handle(ResetPassword(st, username, newPassword, env).error, path).status == GEH.InternalServerError
    ensures GEH.Handle(ResetPassword(st, username, newPassword, env).error, path).message == GEH.GenericText
  {
  }
}
