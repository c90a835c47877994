/**
 * `RefreshTokenService`, the older refresh-token service that still sits
 * beside `RefreshTokenServiceImpl`: UUID-derived tokens, a fixed seven-day
 * lifetime, a validity test that ignores the `expired` flag, and a periodic
 * purge of rows due strictly before now. The UUID text is a parameter.
 */
module RefreshTokenService {
  import opened Wrappers
  import opened Store
  import opened Errors
  import opened UserEntity
  import opened TokenEntity
  import opened RefreshTokenEntity
  import opened RefreshTokenRepository
  import opened JavaText
  import opened TokenText
  import Impl = RefreshTokenServiceImpl

  /** Seven days in seconds. */
  const Lifetime: int := 60 * 60 * 24 * 7

  predicate IsHexDigit(c: char) {
    '0' <= c <= '9' || 'a' <= c <= 'f'
  }

  predicate IsUuidDashSlot(i: int) {
    i == 8 || i == 13 || i == 18 || i == 23
  }

  /** The canonical text `UUID.toString()` produces: 8-4-4-4-12 lower-case hex digits. */
  predicate IsCanonicalUuid(u: string) {
    |u| == 36 && forall i :: 0 <= i < 36 ==> if IsUuidDashSlot(i) then u[i] == '-' else IsHexDigit(u[i])
  }

  /** No dash inside a run of digit positions. */
  lemma NoDashBetween(u: string, lo: int, hi: int)
    requires IsCanonicalUuid(u) && 0 <= lo <= hi <= 36
    requires forall i :: lo <= i < hi ==> !IsUuidDashSlot(i)
    ensures '-' !in u[lo..hi]
  {
    forall k | 0 <= k < hi - lo
      ensures u[lo..hi][k] != '-'
    {
      assert u[lo..hi][k] == u[lo + k];
    }
  }

  /** Removing the dashes from the suffix of `u` that starts at a group. */
  lemma StripFrom(u: string, lo: int, dash: int)
    requires IsCanonicalUuid(u) && 0 <= lo <= dash < 36 && IsUuidDashSlot(dash)
    requires forall i :: lo <= i < dash ==> !IsUuidDashSlot(i)
    ensures RemoveAll(u[lo..], "-") == u[lo..dash] + RemoveAll(u[dash + 1..], "-")
  {
    NoDashBetween(u, lo, dash);
    assert u[lo..] == u[lo..dash] + "-" + u[dash + 1..];
    DropGroupDash(u[lo..dash], u[dash + 1..]);
  }

  /** The dashes removed from the last three groups of a canonical UUID. */
  lemma StripLastGroups(u: string)
    requires IsCanonicalUuid(u)
    ensures RemoveAll(u[14..], "-") == u[14..18] + u[19..23] + u[24..]
  {
    NoDashBetween(u, 24, 36);
    assert u[24..36] == u[24..];
    RemoveCharAbsent(u[24..], '-');
    StripFrom(u, 19, 23);
    StripFrom(u, 14, 18);
  }

  /** `replaceAll("-", "")` on a canonical UUID leaves its 32 hex digits. */
  lemma StripUuidDashes(u: string)
    requires IsCanonicalUuid(u)
    ensures RemoveAll(u, "-") == u[..8] + u[9..13] + u[14..18] + u[19..23] + u[24..]
  {
    StripLastGroups(u);
    var tail := u[14..18] + u[19..23] + u[24..];
    StripFrom(u, 9, 13);
    assert RemoveAll(u[9..], "-") == u[9..13] + tail;
    StripFrom(u, 0, 8);
    assert u[0..] == u && u[0..8] == u[..8];
    assert RemoveAll(u, "-") == u[..8] + (u[9..13] + tail);
  }

  /** The first sixteen hex digits of a canonical UUID. */
  function LeadingDigits(u: string): (h: string)
    requires IsCanonicalUuid(u)
    ensures |h| == 16 && '-' !in h
    ensures forall k :: 0 <= k < 16 ==> IsHexDigit(h[k])
  {
    var h := u[..8] + u[9..13] + u[14..18];
    assert forall k :: 0 <= k < 16 ==> h[k] == u[if k < 8 then k else if k < 12 then k + 1 else k + 2];
    h
  }

  /**
   * The token `generateTokenFormat` derives from a UUID: its first sixteen
   * hex digits, grouped by four; removing the dashes gives those digits back.
   */
  function TokenFormat(u: string): (r: string)
    requires IsCanonicalUuid(u)
    ensures |r| == GroupedLength
    ensures forall i :: 0 <= i < |r| ==> if IsDashSlot(i) then r[i] == '-' else r[i] == LeadingDigits(u)[i - i / 5]
    ensures RemoveAll(r, "-") == LeadingDigits(u)
  {
    StripUuidDashes(u);
    var hex := RemoveAll(u, "-");
    assert hex[..16] == LeadingDigits(u);
    UngroupGrouped(LeadingDigits(u));
    Grouped(hex[..16])
  }

  /** Where digit `i` and the dash after it land in the token. */
  lemma TokenFormatSlots(u: string, i: int)
    requires IsCanonicalUuid(u) && 0 <= i < 16
    ensures TokenFormat(u)[i + i / 4] == LeadingDigits(u)[i]
    ensures (i + 1) % 4 == 0 && i < 15 ==> TokenFormat(u)[i + i / 4 + 1] == '-'
  {
    var n := i + i / 4;
    assert n / 5 == i / 4 && n % 5 == i % 4 by {
      assert n == 5 * (i / 4) + i % 4;
    }
    if (i + 1) % 4 == 0 && i < 15 {
      assert (n + 1) % 5 == 4 by {
        assert n + 1 == 5 * (i / 4) + 4;
      }
    }
  }

  /**
   * `generateTokenFormat`: strips the UUID's dashes, then copies sixteen
   * digits, appending a dash after every fourth one but the last.
   */
  method GenerateTokenFormat(u: string) returns (formatted: string)
    requires IsCanonicalUuid(u)
    ensures formatted == TokenFormat(u)
  {
    StripUuidDashes(u);
    var uuid := RemoveAll(u, "-");
    assert uuid[..16] == LeadingDigits(u);
    ghost var full := TokenFormat(u);
    formatted := "";
    for i := 0 to 16
      invariant |formatted| == if i == 16 then 19 else i + i / 4
      invariant formatted == full[..|formatted|]
    {
      TokenFormatSlots(u, i);
      PrefixExtends(full, |formatted|);
      formatted := formatted + [uuid[i]];
      if (i + 1) % 4 == 0 && i < 15 {
        PrefixExtends(full, |formatted|);
        formatted := formatted + "-";
      }
    }
  }

  /** `createRefreshToken(user)`: a row due seven days after `now`, flag clear. */
  function CreateRefreshToken(rs: RefreshTokens, user: User, now: Instant, u: string)
    : (r: Result<Impl.Saved, Exception>)
    requires IsCanonicalUuid(u)
    ensures r.Ok? <==> forall i :: 0 <= i < |rs| ==> rs[i].token != TokenFormat(u)
    ensures r.Ok? ==> r.value.table == rs + [r.value.row]
    ensures r.Ok? ==> r.value.row.userId == user.id && r.value.row.token == TokenFormat(u)
    ensures r.Ok? ==> r.value.row.expiryDate == now + Lifetime && !r.value.row.expired
    ensures r.Ok? && Valid(rs) ==> Valid(r.value.table)
    ensures r.Err? ==> r.error.DataIntegrityViolation?
  {
    var row := RefreshToken(user.id, TokenFormat(u), now + Lifetime, false);
    var table :- Insert(rs, row);
    Ok(Impl.Saved(row, table))
  }

  /** `deleteByUser`: the user's refresh tokens go, everyone else's stay. */
  function DeleteByUser(rs: RefreshTokens, user: User): (r: RefreshTokens)
    ensures forall i :: 0 <= i < |r| ==> r[i] in rs && r[i].userId != user.id
    ensures forall i :: 0 <= i < |rs| && rs[i].userId != user.id ==> rs[i] in r
    ensures Valid(rs) ==> Valid(r)
  {
    DeleteByUserId(rs, user.id)
  }

  /** `deleteExpiredTokens`: the periodic purge of rows due strictly before `now`. */
  function DeleteExpiredTokens(rs: RefreshTokens, now: Instant): (r: RefreshTokens)
    ensures forall i :: 0 <= i < |r| ==> r[i] in rs && r[i].expiryDate >= now
    ensures forall i :: 0 <= i < |rs| && rs[i].expiryDate >= now ==> rs[i] in r
  {
    DeleteAllByExpiryDateBefore(rs, now).rows
  }

  /** `isValid`: the row exists and its expiry instant is after `now`; the flag is not read. */
  predicate IsValid(rs: RefreshTokens, value: string, now: Instant) {
    match FindByToken(rs, value)
    case None => false
    case Some(t) => t.expiryDate > now
  }

  /** Whatever the newer service accepts, this one accepts too. */
  lemma ImplValidImpliesValid(rs: RefreshTokens, value: string, now: Instant)
    requires Impl.IsValid(rs, value, now)
    ensures IsValid(rs, value, now)
  {
  }

  /**
   * The converse fails: a row flagged by the expiry job but not yet due is
   * accepted here and rejected by the newer service.
   */
  lemma FlaggedRowAcceptedOnlyHere(rs: RefreshTokens, i: int, now: Instant)
    requires Valid(rs) && 0 <= i < |rs| && rs[i].expired && rs[i].expiryDate > now
    ensures IsValid(rs, rs[i].token, now)
    ensures !Impl.IsValid(rs, rs[i].token, now)
  {
    FindByTokenFindsRow(rs, i);
  }

  /** The purge keeps rows due exactly at `now`, which `isValid` already rejects. */
  lemma PurgeKeepsRowsDueNow(rs: RefreshTokens, i: int, now: Instant)
    requires Valid(rs) && 0 <= i < |rs| && rs[i].expiryDate == now
    ensures rs[i] in DeleteExpiredTokens(rs, now)
    ensures !IsValid(rs, rs[i].token, now)
  {
    FindByTokenFindsRow(rs, i);
  }
}
