/**
 * The `Token` entity: one issued access token (the signed JWT text) with its
 * revocation and expiry flags, its expiry instant and the device it was issued
 * to.
 */
module TokenEntity {
  import opened Wrappers
  import opened UserEntity

  /** An instant, as a whole number of seconds on the server clock. */
  type Instant = int

  datatype Token = Token(
    token: string,             // unique column
    revoked: bool,
    expired: bool,
    createdAt: Instant,
    expiryDate: Instant,
    ipAddress: string,
    userAgent: Option<string>, // the User-Agent header, which a client may omit
    userId: UserId)
  {
    /** `isExpired()`: by flag, or by an expiry instant strictly before `now`. */
    predicate IsExpired(now: Instant) {
      expired || expiryDate < now
    }
  }

  /**
   * The row `AuthService.saveAccessToken` builds: both flags clear, created
   * now, expiring at `expiryDate`.
   */
  function NewToken(value: string, userId: UserId, now: Instant, expiryDate: Instant,
                    ipAddress: string, userAgent: Option<string>): (t: Token)
    ensures t.token == value && t.userId == userId
    ensures !t.revoked && !t.expired
    ensures forall later :: now <= later <= expiryDate ==> !t.IsExpired(later)
    ensures forall later :: later > expiryDate ==> t.IsExpired(later)
  {
    Token(value, false, false, now, expiryDate, ipAddress, userAgent, userId)
  }

  /** Once expired, a token stays expired. */
  lemma IsExpiredMonotone(t: Token, now: Instant, later: Instant)
    requires now <= later && t.IsExpired(now)
    ensures t.IsExpired(later)
  {
  }

  /**
   * The expiry instant itself still counts as live: only an instant strictly
   * after it, or the flag, expires a token.
   */
  lemma ExpiryInstantIsLive(t: Token)
    requires !t.expired
    ensures !t.IsExpired(t.expiryDate)
    ensures t.IsExpired(t.expiryDate + 1)
  {
  }

  /** The key of the unique `token` column. */
  function TokenKey(t: Token): string
  {
    t.token
  }
}
