/**
 * `TokenCleanupServiceImpl`: the two-stage housekeeping of access tokens
 * (flag those due, then delete those flagged or revoked) and the immediate
 * cleanup that runs both in one transaction. A statement the database
 * rejects is a `fault` parameter; the transaction then rolls back and the
 * exception reaches the caller.
 */
module TokenCleanupServiceImpl {
  import opened Wrappers
  import opened Store
  import opened Errors
  import opened TokenEntity
  import opened TokenRepository

  /** `markExpiredTokens`: the bulk flag at `now`, or the fault with the table untouched. */
  function MarkExpiredTokens(ts: Tokens, now: Instant, fault: Option<Exception>): (r: Result<Tokens, Exception>)
    ensures fault.Some? <==> r.Err?
    ensures r.Err? ==> r.error == fault.value
    ensures r.Ok? ==> |r.value| == |ts| && forall i :: 0 <= i < |ts| ==>
      r.value[i].token == ts[i].token && (r.value[i] == ts[i] || r.value[i] == ts[i].(expired := true))
    ensures r.Ok? ==> forall i :: 0 <= i < |r.value| ==> r.value[i].expiryDate > now || r.value[i].expired
  {
    if fault.Some? then Err(fault.value) else Ok(TokenRepository.MarkExpiredTokens(ts, now).rows)
  }

  /** `deleteExpiredTokens`: the bulk delete of flagged or revoked rows, or the fault. */
  function DeleteExpiredTokens(ts: Tokens, fault: Option<Exception>): (r: Result<Tokens, Exception>)
    ensures fault.Some? <==> r.Err?
    ensures r.Err? ==> r.error == fault.value
    ensures r.Ok? ==> forall i :: 0 <= i < |r.value| ==> r.value[i] in ts && !r.value[i].expired && !r.value[i].revoked
    ensures r.Ok? ==> forall i :: 0 <= i < |ts| && !ts[i].expired && !ts[i].revoked ==> ts[i] in r.value
  {
    if fault.Some? then Err(fault.value) else Ok(DeleteExpiredAndRevokedTokens(ts).rows)
  }

  /** A token that survives an immediate cleanup at `now`: both flags clear and due after `now`. */
  function Survives(now: Instant): Token -> bool {
    (t: Token) => !t.expired && !t.revoked && t.expiryDate > now
  }

  /**
   * `cleanupNow`: flag at `now`, then delete. Exactly the rows with both
   * flags clear and due after `now` remain, in their order; a fault in either
   * statement rolls both back.
   */
  function CleanupNow(ts: Tokens, now: Instant, markFault: Option<Exception>, deleteFault: Option<Exception>)
    : (r: Result<Tokens, Exception>)
    ensures r.Err? <==> markFault.Some? || deleteFault.Some?
    ensures r.Ok? ==> r.value == Filter(ts, Survives(now))
    ensures r.Ok? ==> forall i :: 0 <= i < |r.value| ==>
      r.value[i] in ts && !r.value[i].IsExpired(now) && !r.value[i].revoked && r.value[i].expiryDate != now
    ensures r.Ok? && Valid(ts) ==> Valid(r.value)
  {
    var marked :- MarkExpiredTokens(ts, now, markFault);
    var swept :- DeleteExpiredTokens(marked, deleteFault);
    FilterAfterUpdate(ts, Markable(now), SetExpired, Clean, Survives(now));
    assert Valid(ts) ==> Valid(swept) by {
      if Valid(ts) { FilterUniqueBy(ts, Survives(now), TokenKey); }
    }
    Ok(swept)
  }

  /** A second immediate cleanup at the same instant finds nothing to do. */
  lemma CleanupNowIdempotent(ts: Tokens, now: Instant)
    ensures CleanupNow(CleanupNow(ts, now, None, None).value, now, None, None) == CleanupNow(ts, now, None, None)
  {
    var once := CleanupNow(ts, now, None, None).value;
    FilterAll(once, Survives(now));
  }

  /** The rows a cleanup at `now` leaves are exactly the live, unrevoked ones due after `now`. */
  lemma CleanupNowKeepsExactlySurvivors(ts: Tokens, now: Instant, t: Token)
    ensures t in CleanupNow(ts, now, None, None).value <==>
      t in ts && !t.expired && !t.revoked && t.expiryDate > now
  {
  }
}
