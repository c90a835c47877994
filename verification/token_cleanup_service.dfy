/**
 * `TokenCleanupService`, the scheduled counterpart of
 * `TokenCleanupServiceImpl`: the same statements, but the two scheduled
 * stages catch and log any failure instead of raising it. The immediate
 * cleanup has no such guard.
 */
module TokenCleanupService {
  import opened Wrappers
  import opened Errors
  import opened TokenEntity
  import opened TokenRepository
  import Impl = TokenCleanupServiceImpl

  /** Every minute: flag tokens due at `now`; a failure is logged and the table stays as it was. */
  function MarkExpiredTokens(ts: Tokens, now: Instant, fault: Option<Exception>): (r: Tokens)
    ensures fault.Some? ==> r == ts
    ensures fault.None? ==> forall i :: 0 <= i < |r| ==> r[i].expiryDate > now || r[i].expired
  {
    match Impl.MarkExpiredTokens(ts, now, fault)
    case Ok(marked) => marked
    case Err(_) => ts
  }

  /** Every two minutes: delete flagged or revoked tokens; a failure is logged and the table stays. */
  function DeleteExpiredTokens(ts: Tokens, fault: Option<Exception>): (r: Tokens)
    ensures fault.Some? ==> r == ts
    ensures fault.None? ==> forall i :: 0 <= i < |r| ==> r[i] in ts && !r[i].expired && !r[i].revoked
  {
    match Impl.DeleteExpiredTokens(ts, fault)
    case Ok(swept) => swept
    case Err(_) => ts
  }

  /** `cleanupNow`: the same two statements with no catch. */
  function CleanupNow(ts: Tokens, now: Instant, markFault: Option<Exception>, deleteFault: Option<Exception>)
    : (r: Result<Tokens, Exception>)
    ensures r.Err? <==> markFault.Some? || deleteFault.Some?
    ensures r.Ok? ==> forall i :: 0 <= i < |r.value| ==> r.value[i] in ts && !r.value[i].IsExpired(now)
  {
    Impl.CleanupNow(ts, now, markFault, deleteFault)
  }

  /**
   * The two services agree whenever the database does not fail; on a
   * failure the scheduled stages here keep the table where the other class
   * raises.
   */
  lemma AgreesWithImpl(ts: Tokens, now: Instant, fault: Option<Exception>)
    ensures fault.None? ==> Impl.MarkExpiredTokens(ts, now, fault) == Ok(MarkExpiredTokens(ts, now, fault))
    ensures fault.None? ==> Impl.DeleteExpiredTokens(ts, fault) == Ok(DeleteExpiredTokens(ts, fault))
    ensures fault.Some? ==> Impl.MarkExpiredTokens(ts, now, fault).Err? && MarkExpiredTokens(ts, now, fault) == ts
    ensures fault.Some? ==> Impl.DeleteExpiredTokens(ts, fault).Err? && DeleteExpiredTokens(ts, fault) == ts
  {
  }

  /**
   * Running the two scheduled stages back to back at `now` leaves what one
   * immediate cleanup leaves.
   */
  lemma StagesMatchCleanupNow(ts: Tokens, now: Instant)
    ensures DeleteExpiredTokens(MarkExpiredTokens(ts, now, None), None) == CleanupNow(ts, now, None, None).value
  {
  }
}
