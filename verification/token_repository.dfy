/**
 * `TokenRepository`: the access-token table and the four queries the code
 * declares on it beyond plain saving.
 */
module TokenRepository {
  import opened Wrappers
  import opened Store
  import opened Errors
  import opened UserEntity
  import opened TokenEntity

  /** The table, in the order a list query returns rows; token strings are unique. */
  type Tokens = seq<Token>

  predicate Valid(ts: Tokens) {
    UniqueBy(ts, TokenKey)
  }

  function WithToken(value: string): Token -> bool {
    (t: Token) => t.token == value
  }

  /** `findByToken`: the row holding `value`, if any. */
  function FindByToken(ts: Tokens, value: string): (r: Option<Token>)
    ensures r.Some? ==> r.value in ts && r.value.token == value
    ensures r.None? <==> forall i :: 0 <= i < |ts| ==> ts[i].token != value
  {
    Find(ts, WithToken(value))
  }

  /** In a valid table the lookup returns the row that holds the string. */
  lemma FindByTokenFindsRow(ts: Tokens, i: int)
    requires Valid(ts) && 0 <= i < |ts|
    ensures FindByToken(ts, ts[i].token) == Some(ts[i])
  {
    FindUniqueKey(ts, TokenKey, WithToken(ts[i].token), i);
  }

  /**
   * `save` of a new row: appended at the end, or a `DataIntegrityViolation`
   * when its token string is already taken (the column is unique).
   */
  function Insert(ts: Tokens, t: Token): (r: Result<Tokens, Exception>)
    ensures r.Ok? <==> forall i :: 0 <= i < |ts| ==> ts[i].token != t.token
    ensures r.Ok? ==> r.value == ts + [t]
    ensures r.Ok? && Valid(ts) ==> Valid(r.value)
    ensures r.Err? ==> r.error == DataIntegrityViolation(DuplicateKeyMessage)
  {
    if FindByToken(ts, t.token).Some? then Err(DataIntegrityViolation(DuplicateKeyMessage))
    else
      assert Valid(ts) ==> Valid(ts + [t]) by {
        if Valid(ts) { AppendUniqueBy(ts, t, TokenKey); }
      }
      Ok(ts + [t])
  }

  function ValidFor(userId: UserId): Token -> bool {
    (t: Token) => t.userId == userId && !t.expired && !t.revoked
  }

  /** `findAllValidTokenByUser`: the user's rows with neither flag set, in table order. */
  function FindAllValidTokenByUser(ts: Tokens, userId: UserId): (r: Tokens)
    ensures forall i :: 0 <= i < |r| ==> r[i] in ts
    ensures forall i :: 0 <= i < |r| ==> r[i].userId == userId && !r[i].expired && !r[i].revoked
    ensures forall i :: 0 <= i < |ts| && ts[i].userId == userId && !ts[i].expired && !ts[i].revoked ==> ts[i] in r
  {
    Filter(ts, ValidFor(userId))
  }

  function NotOwnedBy(userId: UserId): Token -> bool {
    (t: Token) => t.userId != userId
  }

  /** `deleteAllByUserId`: every row of the user goes, every other row stays. */
  function DeleteAllByUserId(ts: Tokens, userId: UserId): (r: Tokens)
    ensures forall i :: 0 <= i < |r| ==> r[i] in ts && r[i].userId != userId
    ensures forall i :: 0 <= i < |ts| && ts[i].userId != userId ==> ts[i] in r
    ensures Valid(ts) ==> Valid(r)
  {
    var r := Filter(ts, NotOwnedBy(userId));
    assert Valid(ts) ==> Valid(r) by {
      if Valid(ts) { FilterUniqueBy(ts, NotOwnedBy(userId), TokenKey); }
    }
    r
  }

  /** The `WHERE` clause of `markExpiredTokens`: due by `now` and not yet flagged. */
  function Markable(now: Instant): Token -> bool {
    (t: Token) => t.expiryDate <= now && !t.expired
  }

  function SetExpired(t: Token): Token {
    t.(expired := true)
  }

  /**
   * `markExpiredTokens(now)`: flags every unflagged row whose expiry instant is
   * at or before `now`, in place, and reports how many rows it changed.
   */
  function MarkExpiredTokens(ts: Tokens, now: Instant): (b: Bulk<Token>)
    ensures |b.rows| == |ts|
    ensures forall i :: 0 <= i < |ts| ==>
      b.rows[i] == if ts[i].expiryDate <= now && !ts[i].expired then ts[i].(expired := true) else ts[i]
    ensures b.count == Differences(ts, b.rows)
    ensures forall i :: 0 <= i < |b.rows| ==> b.rows[i].expiryDate > now || b.rows[i].expired
    ensures Valid(ts) ==> Valid(b.rows)
  {
    var rows := Update(ts, Markable(now), SetExpired);
    UpdateChangesCount(ts, Markable(now), SetExpired);
    assert Valid(ts) ==> Valid(rows) by {
      if Valid(ts) { UpdateUniqueBy(ts, Markable(now), SetExpired, TokenKey); }
    }
    Bulk(rows, Count(ts, Markable(now)))
  }

  /** Marking twice at the same instant: the second pass changes nothing and reports 0. */
  lemma MarkExpiredTokensIdempotent(ts: Tokens, now: Instant)
    ensures MarkExpiredTokens(MarkExpiredTokens(ts, now).rows, now) == Bulk(MarkExpiredTokens(ts, now).rows, 0)
  {
    var once := MarkExpiredTokens(ts, now).rows;
    var twice := MarkExpiredTokens(once, now);
    assert twice.rows == once;
  }

  /**
   * The bulk update uses `<=` where `isExpired` uses `<`: a token whose expiry
   * instant is exactly `now` is live by `isExpired` but gets flagged.
   */
  lemma MarkFlagsLiveTokenAtExpiryInstant(ts: Tokens, i: int, now: Instant)
    requires 0 <= i < |ts| && !ts[i].expired && ts[i].expiryDate == now
    ensures !ts[i].IsExpired(now)
    ensures MarkExpiredTokens(ts, now).rows[i].IsExpired(now)
  {
  }

  function Stale(t: Token): bool {
    t.expired || t.revoked
  }

  function Clean(t: Token): bool {
    !t.expired && !t.revoked
  }

  /**
   * `deleteExpiredAndRevokedTokens`: removes every row with either flag set,
   * keeps the rest in order, and reports how many it removed.
   */
  function DeleteExpiredAndRevokedTokens(ts: Tokens): (b: Bulk<Token>)
    ensures forall i :: 0 <= i < |b.rows| ==> b.rows[i] in ts && !b.rows[i].expired && !b.rows[i].revoked
    ensures forall i :: 0 <= i < |ts| && !ts[i].expired && !ts[i].revoked ==> ts[i] in b.rows
    ensures b.count + |b.rows| == |ts|
    ensures Valid(ts) ==> Valid(b.rows)
  {
    DeleteCount(ts, Clean, Stale);
    var rows := Filter(ts, Clean);
    assert Valid(ts) ==> Valid(rows) by {
      if Valid(ts) { FilterUniqueBy(ts, Clean, TokenKey); }
    }
    Bulk(rows, Count(ts, Stale))
  }
}
