/**
 * `RefreshTokenRepository`: the refresh-token table, its lookup, the per-user
 * delete, and the three bulk statements used for expiry housekeeping.
 */
module RefreshTokenRepository {
  import opened Wrappers
  import opened Store
  import opened Errors
  import opened UserEntity
  import opened TokenEntity
  import opened RefreshTokenEntity

  /** The table, in the order a list query returns rows; token strings are unique. */
  type RefreshTokens = seq<RefreshToken>

  predicate Valid(rs: RefreshTokens) {
    UniqueBy(rs, RefreshKey)
  }

  function WithToken(value: string): RefreshToken -> bool {
    (t: RefreshToken) => t.token == value
  }

  /** `findByToken`: the row holding `value`, if any. */
  function FindByToken(rs: RefreshTokens, value: string): (r: Option<RefreshToken>)
    ensures r.Some? ==> r.value in rs && r.value.token == value
    ensures r.None? <==> forall i :: 0 <= i < |rs| ==> rs[i].token != value
  {
    Find(rs, WithToken(value))
  }

  /** In a valid table the lookup returns the row that holds the string. */
  lemma FindByTokenFindsRow(rs: RefreshTokens, i: int)
    requires Valid(rs) && 0 <= i < |rs|
    ensures FindByToken(rs, rs[i].token) == Some(rs[i])
  {
    FindUniqueKey(rs, RefreshKey, WithToken(rs[i].token), i);
  }

  /**
   * `save` of a new row: appended at the end, or a `DataIntegrityViolation`
   * when its token string is already taken (the column is unique).
   */
  function Insert(ts: RefreshTokens, t: RefreshToken): (r: Result<RefreshTokens, Exception>)
    ensures r.Ok? <==> forall i :: 0 <= i < |ts| ==> ts[i].token != t.token
    ensures r.Ok? ==> r.value == ts + [t]
    ensures r.Ok? && Valid(ts) ==> Valid(r.value)
    ensures r.Err? ==> r.error == DataIntegrityViolation(DuplicateKeyMessage)
  {
    if FindByToken(ts, t.token).Some? then Err(DataIntegrityViolation(DuplicateKeyMessage))
    else
      assert Valid(ts) ==> Valid(ts + [t]) by {
        if Valid(ts) { AppendUniqueBy(ts, t, RefreshKey); }
      }
      Ok(ts + [t])
  }

  function NotOwnedBy(userId: UserId): RefreshToken -> bool {
    (t: RefreshToken) => t.userId != userId
  }

  /** `deleteByUserId`: every row of the user goes, every other row stays. */
  function DeleteByUserId(rs: RefreshTokens, userId: UserId): (r: RefreshTokens)
    ensures forall i :: 0 <= i < |r| ==> r[i] in rs && r[i].userId != userId
    ensures forall i :: 0 <= i < |rs| && rs[i].userId != userId ==> rs[i] in r
    ensures Valid(rs) ==> Valid(r)
  {
    var r := Filter(rs, NotOwnedBy(userId));
    assert Valid(rs) ==> Valid(r) by {
      if Valid(rs) { FilterUniqueBy(rs, NotOwnedBy(userId), RefreshKey); }
    }
    r
  }

  /** The `WHERE` clause of `markExpiredRefreshTokens`: due by `now`, not yet flagged. */
  function Markable(now: Instant): RefreshToken -> bool {
    (t: RefreshToken) => t.expiryDate <= now && !t.expired
  }

  function SetExpired(t: RefreshToken): RefreshToken {
    t.(expired := true)
  }

  /**
   * `markExpiredRefreshTokens(now)`: flags every unflagged row whose expiry
   * instant is at or before `now`, in place, and reports how many it changed.
   */
  function MarkExpiredRefreshTokens(rs: RefreshTokens, now: Instant): (b: Bulk<RefreshToken>)
    ensures |b.rows| == |rs|
    ensures forall i :: 0 <= i < |rs| ==>
      b.rows[i] == if rs[i].expiryDate <= now && !rs[i].expired then rs[i].(expired := true) else rs[i]
    ensures b.count == Differences(rs, b.rows)
    ensures forall i :: 0 <= i < |b.rows| ==> b.rows[i].expiryDate > now || b.rows[i].expired
    ensures Valid(rs) ==> Valid(b.rows)
  {
    var rows := Update(rs, Markable(now), SetExpired);
    UpdateChangesCount(rs, Markable(now), SetExpired);
    assert Valid(rs) ==> Valid(rows) by {
      if Valid(rs) { UpdateUniqueBy(rs, Markable(now), SetExpired, RefreshKey); }
    }
    Bulk(rows, Count(rs, Markable(now)))
  }

  /** Marking twice at the same instant: the second pass changes nothing and reports 0. */
  lemma MarkExpiredRefreshTokensIdempotent(rs: RefreshTokens, now: Instant)
    ensures MarkExpiredRefreshTokens(MarkExpiredRefreshTokens(rs, now).rows, now)
         == Bulk(MarkExpiredRefreshTokens(rs, now).rows, 0)
  {
    var once := MarkExpiredRefreshTokens(rs, now).rows;
    assert MarkExpiredRefreshTokens(once, now).rows == once;
  }

  /** The `WHERE` clause of `deleteExpiredRefreshTokens(now)`. */
  function DueOrFlagged(now: Instant): RefreshToken -> bool {
    (t: RefreshToken) => t.expired || t.expiryDate <= now
  }

  function Kept(now: Instant): RefreshToken -> bool {
    (t: RefreshToken) => !t.expired && t.expiryDate > now
  }

  /**
   * `deleteExpiredRefreshTokens(now)`: removes every flagged row and every row
   * due at or before `now`, and reports how many it removed.
   */
  function DeleteExpiredRefreshTokens(rs: RefreshTokens, now: Instant): (b: Bulk<RefreshToken>)
    ensures forall i :: 0 <= i < |b.rows| ==> b.rows[i] in rs && !b.rows[i].expired && b.rows[i].expiryDate > now
    ensures forall i :: 0 <= i < |rs| && !rs[i].expired && rs[i].expiryDate > now ==> rs[i] in b.rows
    ensures b.count + |b.rows| == |rs|
    ensures Valid(rs) ==> Valid(b.rows)
  {
    DeleteCount(rs, Kept(now), DueOrFlagged(now));
    var rows := Filter(rs, Kept(now));
    assert Valid(rs) ==> Valid(rows) by {
      if Valid(rs) { FilterUniqueBy(rs, Kept(now), RefreshKey); }
    }
    Bulk(rows, Count(rs, DueOrFlagged(now)))
  }

  function DueBefore(now: Instant): RefreshToken -> bool {
    (t: RefreshToken) => t.expiryDate < now
  }

  function NotDueBefore(now: Instant): RefreshToken -> bool {
    (t: RefreshToken) => t.expiryDate >= now
  }

  /**
   * `deleteAllByExpiryDateBefore(now)`: removes the rows due strictly before
   * `now`, whatever their flag, and reports how many it removed.
   */
  function DeleteAllByExpiryDateBefore(rs: RefreshTokens, now: Instant): (b: Bulk<RefreshToken>)
    ensures forall i :: 0 <= i < |b.rows| ==> b.rows[i] in rs && b.rows[i].expiryDate >= now
    ensures forall i :: 0 <= i < |rs| && rs[i].expiryDate >= now ==> rs[i] in b.rows
    ensures b.count + |b.rows| == |rs|
    ensures Valid(rs) ==> Valid(b.rows)
  {
    DeleteCount(rs, NotDueBefore(now), DueBefore(now));
    var rows := Filter(rs, NotDueBefore(now));
    assert Valid(rs) ==> Valid(rows) by {
      if Valid(rs) { FilterUniqueBy(rs, NotDueBefore(now), RefreshKey); }
    }
    Bulk(rows, Count(rs, DueBefore(now)))
  }

  /**
   * The strict delete removes no more than the `<=`-and-flag delete: it keeps
   * rows due exactly at `now` and flagged rows that are not yet due.
   */
  lemma {:induction false} DeleteBeforeRemovesLess(rs: RefreshTokens, now: Instant)
    ensures DeleteAllByExpiryDateBefore(rs, now).count <= DeleteExpiredRefreshTokens(rs, now).count
  {
    CountMonotone(rs, DueBefore(now), DueOrFlagged(now));
  }

  /**
   * Marking before deleting at the same instant changes nothing about what
   * the delete leaves: marked rows are due, and due rows go either way.
   */
  lemma MarkThenDeleteKeepsSameRows(rs: RefreshTokens, now: Instant)
    ensures DeleteExpiredRefreshTokens(MarkExpiredRefreshTokens(rs, now).rows, now).rows
         == DeleteExpiredRefreshTokens(rs, now).rows
  {
    FilterAfterUpdate(rs, Markable(now), SetExpired, Kept(now), Kept(now));
  }
}
