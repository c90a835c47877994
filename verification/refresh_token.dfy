/**
 * The `RefreshToken` entity: an opaque readable string a client trades for a
 * new access token, owned by one user, with an expiry instant and a flag.
 */
module RefreshTokenEntity {
  import opened UserEntity
  import opened TokenEntity

  /** A refresh-token row. The entity has no creation time. */
  datatype RefreshToken = RefreshToken(
    userId: UserId,
    token: string,    // unique column
    expiryDate: Instant,
    expired: bool)
  {
    /** `isExpired()`: an expiry instant strictly before `now`, or the flag. */
    predicate IsExpired(now: Instant) {
      expiryDate < now || expired
    }
  }

  /** Once expired, a refresh token stays expired. */
  lemma IsExpiredMonotone(t: RefreshToken, now: Instant, later: Instant)
    requires now <= later && t.IsExpired(now)
    ensures t.IsExpired(later)
  {
  }

  /** The key of the unique `token` column. */
  function RefreshKey(t: RefreshToken): string
  {
    t.token
  }
}
