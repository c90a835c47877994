/**
 * `RefreshTokenServiceImpl`: issuing, looking up, validating and expiring
 * refresh tokens. Randomness is a parameter: `picks` are the sixteen values
 * `SecureRandom.nextInt(36)` returned, in call order.
 */
module RefreshTokenServiceImpl {
  import opened Wrappers
  import opened Store
  import opened Errors
  import opened UserEntity
  import opened TokenEntity
  import opened RefreshTokenEntity
  import opened RefreshTokenRepository
  import opened JavaText
  import opened TokenText

  /** The characters a readable token is drawn from. */
  const TokenAlphabet: string := "ABCDEFGHIJKLMNOPQRSTUVWXYZ0123456789"

  /** Sixteen draws, each an index into the alphabet. */
  predicate ValidPicks(picks: seq<int>) {
    |picks| == 16 && forall k :: 0 <= k < 16 ==> 0 <= picks[k] < |TokenAlphabet|
  }

  /** The sixteen characters the draws select. */
  function Chosen(picks: seq<int>): (cs: string)
    requires ValidPicks(picks)
    ensures |cs| == 16 && '-' !in cs
    ensures forall k :: 0 <= k < 16 ==> cs[k] == TokenAlphabet[picks[k]]
  {
    seq(16, k requires 0 <= k < 16 => TokenAlphabet[picks[k]])
  }

  /** The position of an alphabet character in the alphabet. */
  function AlphabetIndex(c: char): int {
    if 'A' <= c <= 'Z' then c as int - 'A' as int else c as int - '0' as int + 26
  }

  lemma AlphabetIndexInverts()
    ensures forall k :: 0 <= k < |TokenAlphabet| ==> AlphabetIndex(TokenAlphabet[k]) == k
  {
  }

  /**
   * The token `generateReadableToken` builds from the draws: grouped
   * `XXXX-XXXX-XXXX-XXXX`, every non-dash character from the alphabet, and
   * the draws recoverable by removing the dashes.
   */
  function ReadableToken(picks: seq<int>): (r: string)
    requires ValidPicks(picks)
    ensures |r| == GroupedLength
    ensures forall i :: 0 <= i < |r| ==> if IsDashSlot(i) then r[i] == '-' else r[i] in TokenAlphabet
    ensures RemoveAll(r, "-") == Chosen(picks)
  {
    UngroupGrouped(Chosen(picks));
    Grouped(Chosen(picks))
  }

  /** Where draw `4 * i + j` and the dash before group `i` land in the token. */
  lemma ReadableTokenSlots(picks: seq<int>, i: int, j: int)
    requires ValidPicks(picks) && 0 <= i < 4 && 0 <= j < 4
    ensures ReadableToken(picks)[5 * i + j] == TokenAlphabet[picks[4 * i + j]]
    ensures i > 0 ==> ReadableToken(picks)[5 * i - 1] == '-'
  {
    assert ReadableToken(picks) == Grouped(Chosen(picks));
    GroupedSlot(Chosen(picks), i, j);
  }

  /** The inner loop of `generateReadableToken`: the four draws of group `i`. */
  method AppendGroup(picks: seq<int>, prefix: string, i: int) returns (token: string)
    requires ValidPicks(picks) && 0 <= i < 4
    requires |prefix| == 5 * i && prefix == ReadableToken(picks)[..5 * i]
    ensures |token| == 5 * i + 4 && token == ReadableToken(picks)[..5 * i + 4]
  {
    token := prefix;
    var j := 0;
    while j < 4
      invariant 0 <= j <= 4
      invariant |token| == 5 * i + j
      invariant token == ReadableToken(picks)[..|token|]
    {
      ReadableTokenSlots(picks, i, j);
      ExtendPrefix(ReadableToken(picks), token, TokenAlphabet[picks[4 * i + j]]);
      token := token + [TokenAlphabet[picks[4 * i + j]]];
      j := j + 1;
    }
  }

  /** `generateReadableToken`: four groups of four draws, a dash before every group but the first. */
  method GenerateReadableToken(picks: seq<int>) returns (token: string)
    requires ValidPicks(picks)
    ensures token == ReadableToken(picks)
  {
    token := "";
    var i := 0;
    while i < 4
      invariant 0 <= i <= 4
      invariant |token| == if i == 0 then 0 else 5 * i - 1
      invariant token == ReadableToken(picks)[..|token|]
    {
      if i > 0 {
        ReadableTokenSlots(picks, i, 0);
        ExtendPrefix(ReadableToken(picks), token, '-');
        token := token + "-";
      }
      token := AppendGroup(picks, token, i);
      i := i + 1;
    }
    assert ReadableToken(picks)[..|token|] == ReadableToken(picks);
  }

  /** Different draws never give the same token. */
  lemma ReadableTokenInjective(p: seq<int>, q: seq<int>)
    requires ValidPicks(p) && ValidPicks(q)
    requires ReadableToken(p) == ReadableToken(q)
    ensures p == q
  {
    assert Chosen(p) == Chosen(q);
    AlphabetIndexInverts();
    forall k | 0 <= k < 16
      ensures p[k] == q[k]
    {
      assert AlphabetIndex(TokenAlphabet[p[k]]) == AlphabetIndex(TokenAlphabet[q[k]]);
    }
  }

  /** A saved row and the table after the save. */
  datatype Saved = Saved(row: RefreshToken, table: RefreshTokens)

  /**
   * `createRefreshToken(user)`: saves a fresh unflagged row for the user that
   * expires `refreshTime` seconds after `now`; a clash with an existing
   * token string fails the save.
   */
  function CreateRefreshToken(rs: RefreshTokens, user: User, now: Instant, refreshTime: int, picks: seq<int>)
    : (r: Result<Saved, Exception>)
    requires ValidPicks(picks)
    ensures r.Ok? <==> forall i :: 0 <= i < |rs| ==> rs[i].token != ReadableToken(picks)
    ensures r.Ok? ==> r.value.table == rs + [r.value.row]
    ensures r.Ok? ==> r.value.row.userId == user.id && r.value.row.token == ReadableToken(picks)
    ensures r.Ok? ==> r.value.row.expiryDate == now + refreshTime && !r.value.row.expired
    ensures r.Ok? && Valid(rs) ==> Valid(r.value.table)
    ensures r.Err? ==> r.error.DataIntegrityViolation?
  {
    var row := RefreshToken(user.id, ReadableToken(picks), now + refreshTime, false);
    var table :- Insert(rs, row);
    Ok(Saved(row, table))
  }

  const NotFoundMessage: string := "Refresh token not found"

  /** `getByToken`: the row holding `value`, or `TokenNotFoundException`. */
  function GetByToken(rs: RefreshTokens, value: string): (r: Result<RefreshToken, Exception>)
    ensures r.Ok? ==> r.value in rs && r.value.token == value
    ensures r.Err? <==> forall i :: 0 <= i < |rs| ==> rs[i].token != value
    ensures r.Err? ==> r.error == TokenNotFound(NotFoundMessage)
  {
    match FindByToken(rs, value)
    case None => Err(TokenNotFound(NotFoundMessage))
    case Some(t) => Ok(t)
  }

  /** `isValid`: the row exists, `isExpired()` is false, and the expiry instant is after `now`. */
  predicate IsValid(rs: RefreshTokens, value: string, now: Instant) {
    match FindByToken(rs, value)
    case None => false
    case Some(t) => !t.IsExpired(now) && t.expiryDate > now
  }

  /** In a valid table, `isValid` holds exactly for a live row: unflagged and due after `now`. */
  lemma IsValidIff(rs: RefreshTokens, value: string, now: Instant)
    requires Valid(rs)
    ensures IsValid(rs, value, now) <==>
      exists i :: 0 <= i < |rs| && rs[i].token == value && !rs[i].expired && rs[i].expiryDate > now
  {
    if exists i :: 0 <= i < |rs| && rs[i].token == value {
      var i :| 0 <= i < |rs| && rs[i].token == value;
      FindByTokenFindsRow(rs, i);
    }
  }

  /**
   * At its own expiry instant an unflagged row is not expired by
   * `isExpired()`, yet `isValid` already rejects it.
   */
  lemma IsValidRejectsAtExpiryInstant(rs: RefreshTokens, i: int)
    requires Valid(rs) && 0 <= i < |rs| && !rs[i].expired
    ensures !rs[i].IsExpired(rs[i].expiryDate)
    ensures !IsValid(rs, rs[i].token, rs[i].expiryDate)
  {
    FindByTokenFindsRow(rs, i);
  }

  /** A token just issued with a positive lifetime is found and valid at the instant of issue. */
  lemma CreatedTokenIsValid(rs: RefreshTokens, user: User, now: Instant, refreshTime: int, picks: seq<int>)
    requires ValidPicks(picks) && Valid(rs) && refreshTime > 0
    requires CreateRefreshToken(rs, user, now, refreshTime, picks).Ok?
    ensures var s := CreateRefreshToken(rs, user, now, refreshTime, picks).value;
      GetByToken(s.table, s.row.token) == Ok(s.row) && IsValid(s.table, s.row.token, now)
  {
    var s := CreateRefreshToken(rs, user, now, refreshTime, picks).value;
    FindByTokenFindsRow(s.table, |rs|);
  }

  /** `deleteByUser`: the user's refresh tokens go, everyone else's stay. */
  function DeleteByUser(rs: RefreshTokens, user: User): (r: RefreshTokens)
    ensures forall i :: 0 <= i < |r| ==> r[i] in rs && r[i].userId != user.id
    ensures forall i :: 0 <= i < |rs| && rs[i].userId != user.id ==> rs[i] in r
    ensures Valid(rs) ==> Valid(r)
  {
    DeleteByUserId(rs, user.id)
  }

  /** After `deleteByUser`, none of the user's former tokens can be fetched or validated. */
  lemma DeletedTokensAreGone(rs: RefreshTokens, user: User, i: int, now: Instant)
    requires Valid(rs) && 0 <= i < |rs| && rs[i].userId == user.id
    ensures GetByToken(DeleteByUser(rs, user), rs[i].token).Err?
    ensures !IsValid(DeleteByUser(rs, user), rs[i].token, now)
  {
    var r := DeleteByUser(rs, user);
    forall j | 0 <= j < |r|
      ensures r[j].token != rs[i].token
    {
      var k :| 0 <= k < |rs| && rs[k] == r[j];
    }
  }

  /** `markExpiredTokens`: the bulk update at `now`, reporting the rows it flagged. */
  function MarkExpiredTokens(rs: RefreshTokens, now: Instant): (b: Bulk<RefreshToken>)
    ensures |b.rows| == |rs| && b.count == Differences(rs, b.rows)
    ensures forall i :: 0 <= i < |b.rows| ==> b.rows[i].token == rs[i].token && (b.rows[i].expiryDate > now || b.rows[i].expired)
  {
    MarkExpiredRefreshTokens(rs, now)
  }

  /** Marking at `now` never changes what `isValid` says at `now`. */
  lemma {:induction false} MarkPreservesIsValid(rs: RefreshTokens, value: string, now: Instant)
    ensures IsValid(MarkExpiredTokens(rs, now).rows, value, now) == IsValid(rs, value, now)
  {
    FindAfterUpdate(rs, Markable(now), SetExpired, WithToken(value));
  }

  /**
   * `deleteExpiredTokens`: the bulk delete of flagged rows and rows due by
   * `now`, reporting how many it removed.
   */
  function DeleteExpiredTokens(rs: RefreshTokens, now: Instant): (b: Bulk<RefreshToken>)
    ensures forall i :: 0 <= i < |b.rows| ==> b.rows[i] in rs && !b.rows[i].IsExpired(now)
    ensures b.count + |b.rows| == |rs|
  {
    DeleteExpiredRefreshTokens(rs, now)
  }

  /** In a valid table, deleting at `now` never changes what `isValid` says at `now`. */
  lemma DeletePreservesIsValid(rs: RefreshTokens, value: string, now: Instant)
    requires Valid(rs)
    ensures IsValid(DeleteExpiredTokens(rs, now).rows, value, now) == IsValid(rs, value, now)
  {
    var rows := DeleteExpiredTokens(rs, now).rows;
    IsValidIff(rs, value, now);
    IsValidIff(rows, value, now);
  }
}
