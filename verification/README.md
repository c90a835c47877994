# Mobily e-commerce backend: authentication, tokens and admission, in Dafny

This project models the security core of a Spring Boot shop backend. It also models a few catalogue helpers that sit next to that core. The model is written in Dafny, and its properties are proved.

Each request first passes the **rate limiter**, `Bucket4jRateLimitFilter`:
- It keeps one token bucket per client key and path.
- A client key is the first X-Forwarded-For hop, or the remote address, joined to the user agent.
- The login and signup routes are meant to get 3 requests per 10 minutes, and every other path gets 60 per 15 minutes. As written, the strict limit tests prefixes without the "/v1" the served routes have, so every route gets 60 per 15 minutes; `DoFilter` takes a `Routes` switch, and `AsWritten` is the program as it stands.
- A request that finds its bucket empty is answered 429 with a Retry-After in whole seconds, as in section 4 of RFC 6585 and section 10.2.3 of RFC 9110.

Next comes the **JWT filter**, `JwtFilter`:
- It skips the login, signup and reset-password paths.
- It takes the token from an `Authorization: Bearer` header, as in section 2.1 of RFC 6750.
- It runs the decision ladder of `TokenHandler.checkToken`: parse, type ACCESS, expiry, the stored row not revoked or expired, the user found by username.
- On success it authenticates the user with the authorities "ROLE_" + role. Otherwise it answers 401.

Then the **authorization table** of `ProjectSecurityConfig` decides, first match wins:
- Public auth endpoints and four public subtrees are open to everyone.
- "/api/invoices" and "/api/suppliers" need the ADMIN role.
- Everything else needs an authenticated principal.

Behind the controllers:
- `GlobalExceptionHandler` turns every exception into a status and an error body.

**Token lifecycle.** `AuthService` orchestrates signup, login, refresh, logout and password reset over three tables: users, access tokens and refresh tokens.
- Access tokens are JWTs that are also stored as rows.
- Refresh tokens are random 19-character strings, issued by two coexisting services.
- Two coexisting clean-up services first flag due tokens, then delete flagged ones.
- Every repository query is modelled by its JPQL `WHERE` clause, as a filter over a sequence of rows.

**Catalogue.**
- The category tree and its recursive descendant walk.
- The file-name recovery from stored image URLs.
- Product insert, update, status change and delete.
- The singleton branding record.

**How the model is built.**
- Time is an integer number of seconds.
- The JWT signer and parser, the password encoder's `encode` and `matches`, and the random generators are function parameters (oracles), so every property holds for any implementation of them.
- The authentication manager's password check (Spring Security's `DaoAuthenticationProvider` over `loadUserByUsername`) is written out in `UserDetailsServiceConfigImpl.Authenticate`, on top of `matches`.
- Tables are sequences, and each operation is a pure function from the old state to a `Result` carrying the new state, or the exception the Java code throws.
- `Errors` lists those exceptions.
- `JavaText` restates the `java.lang.String` operations the code uses: `startsWith`, `contains`, `lastIndexOf`, `replace`, `trim`, `split(",")[0]` and `equalsIgnoreCase`.
- `Store` holds the generic table operations and their lemmas.

Where two files disagree, both readings are modelled and the disagreement is proved. The main cases:
- The expiry boundary: `Token.isExpired` uses a strict `<`, while the mark query uses `<=`.
- The two refresh-token services differ on validity.
- Password reuse ends as a 500, not as the endpoint's 400.
- The default role "ROLE_USER" becomes the authority "ROLE_ROLE_USER".

Source paths below are relative to the repository root.

## Model

| member | source | states |
|---|---|---|
| UserEntity.PrePersist | src/main/java/org/example/mobilyecommerce/model/User.java:42-51 | a user saved with no roles gets exactly the one role "ROLE_USER"; a user with roles is saved unchanged; either way the saved user has at least one role |
| UserEntity.PrePersistIdempotent | src/main/java/org/example/mobilyecommerce/model/User.java:42-51 | running the hook on an already hooked user changes nothing |
| UserEntity.AuthorityIffRole | src/main/java/org/example/mobilyecommerce/config/UserDetailsServiceConfigImpl.java:37-39 | the authority "ROLE_" + name is granted exactly when name is in the user's role list |
| UserEntity.Authorities | src/main/java/org/example/mobilyecommerce/config/UserDetailsServiceConfigImpl.java:37-39 | one authority per role, in the role list's order, each "ROLE_" followed by the role name |
| UserEntity.DefaultRoleDoublePrefix | src/main/java/org/example/mobilyecommerce/model/User.java:44-49 | a user saved without roles is granted exactly "ROLE_ROLE_USER", and not "ROLE_USER", because the default role name already carries the prefix the authority mapping adds |
| UserRepository.FindByEmail | src/main/java/org/example/mobilyecommerce/config/UserDetailsServiceConfigImpl.java:29 | the lookup reports no user exactly when no row has the email; a found user is the only row with that email |
| UserRepository.FindByUsername | src/main/java/org/example/mobilyecommerce/model/User.java:26 | no user exactly when no row has the username; a found user is the only row with it, and several rows give the non-unique result |
| UserRepository.SharedUsernameIsNonUnique | src/main/java/org/example/mobilyecommerce/model/User.java:26 | usernames have no unique constraint, so two rows with one username make the username lookup non-unique |
| UserRepository.Persist | src/main/java/org/example/mobilyecommerce/model/User.java:22-24 | a saved user passes through the pre-persist hook, gets a key no existing row has, is appended, and the table's keys stay unique |
| UserDetailsServiceConfigImpl.LoadUserByUsername | src/main/java/org/example/mobilyecommerce/config/UserDetailsServiceConfigImpl.java:26-48 | details are returned exactly when the email is non-empty and one user has it; they carry that user's email, password hash and prefixed roles; no such user gives UsernameNotFoundException("User not found") |
| UserDetailsServiceConfigImpl.AuthenticateIff | src/main/java/org/example/mobilyecommerce/config/UserDetailsServiceConfigImpl.java:26-48 | authentication succeeds exactly when the email is non-empty, exactly one user holds it, and the password matches that user's hash |
| UserDetailsServiceConfigImpl.Authenticate | src/main/java/org/example/mobilyecommerce/service/impl/AuthService.java:89-91 | the authentication manager fails only with BadCredentials (an unknown user or a wrong password) or with an internal authentication error wrapping any other failure to load the user |
| TokenEntity.NewToken | src/main/java/org/example/mobilyecommerce/model/Token.java:19-43 | a newly built row has both flags clear, is live at every instant from its creation up to and including its expiry, and expired at every later instant |
| TokenEntity.IsExpiredMonotone | src/main/java/org/example/mobilyecommerce/model/Token.java:48-50 | once a token is expired, it stays expired at every later instant |
| TokenEntity.ExpiryInstantIsLive | src/main/java/org/example/mobilyecommerce/model/Token.java:48-50 | an unflagged token is still live at its expiry instant and expired one second later |
| RefreshTokenEntity.IsExpiredMonotone | src/main/java/org/example/mobilyecommerce/model/RefreshToken.java:40-42 | once a refresh token is expired, it stays expired at every later instant |
| TokenRepository.FindByToken | src/main/java/org/example/mobilyecommerce/repository/TokenRepository.java:19 | the lookup finds nothing exactly when no row holds the string; a found row is in the table and holds it |
| TokenRepository.FindByTokenFindsRow | src/main/java/org/example/mobilyecommerce/repository/TokenRepository.java:19 | in a table with unique token strings, looking up a row's string returns that very row |
| TokenRepository.Insert | src/main/java/org/example/mobilyecommerce/model/Token.java:19-20 | a save succeeds exactly when no row already holds the token string; it appends the row and keeps strings unique; a clash is a DataIntegrityViolation |
| TokenRepository.FindAllValidTokenByUser | src/main/java/org/example/mobilyecommerce/repository/TokenRepository.java:24-28 | the result holds exactly the user's rows with neither flag set |
| TokenRepository.DeleteAllByUserId | src/main/java/org/example/mobilyecommerce/repository/TokenRepository.java:33-35 | every row of the user is removed and every other row is kept |
| TokenRepository.MarkExpiredTokens | src/main/java/org/example/mobilyecommerce/repository/TokenRepository.java:41-49 | unflagged rows due at or before now get the flag in place, all others stay; the count is the number of rows changed; afterwards no unflagged row is due |
| TokenRepository.MarkExpiredTokensIdempotent | src/main/java/org/example/mobilyecommerce/repository/TokenRepository.java:41-49 | a second mark at the same instant changes nothing and reports 0 |
| TokenRepository.MarkFlagsLiveTokenAtExpiryInstant | src/main/java/org/example/mobilyecommerce/repository/TokenRepository.java:43-49 | the bulk update compares with "<=" where the entity's isExpired uses "before", so a token due exactly now is live by isExpired and is flagged anyway |
| TokenRepository.DeleteExpiredAndRevokedTokens | src/main/java/org/example/mobilyecommerce/repository/TokenRepository.java:54-60 | exactly the rows with neither flag survive; the count plus the survivors is the old table size |
| RefreshTokenRepository.FindByToken | src/main/java/org/example/mobilyecommerce/repository/RefreshTokenRepository.java:16 | the lookup finds nothing exactly when no row holds the string; a found row is in the table and holds it |
| RefreshTokenRepository.FindByTokenFindsRow | src/main/java/org/example/mobilyecommerce/repository/RefreshTokenRepository.java:16 | in a table with unique token strings, looking up a row's string returns that very row |
| RefreshTokenRepository.Insert | src/main/java/org/example/mobilyecommerce/model/RefreshToken.java:28-29 | a save succeeds exactly when no row already holds the token string; it appends the row and keeps strings unique; a clash is a DataIntegrityViolation |
| RefreshTokenRepository.DeleteByUserId | src/main/java/org/example/mobilyecommerce/repository/RefreshTokenRepository.java:21-24 | every refresh token of the user is removed and every other row is kept |
| RefreshTokenRepository.MarkExpiredRefreshTokens | src/main/java/org/example/mobilyecommerce/repository/RefreshTokenRepository.java:29-37 | unflagged rows due at or before now get the flag in place, all others stay; the count is the number of rows changed |
| RefreshTokenRepository.MarkExpiredRefreshTokensIdempotent | src/main/java/org/example/mobilyecommerce/repository/RefreshTokenRepository.java:29-37 | a second mark at the same instant changes nothing and reports 0 |
| RefreshTokenRepository.DeleteExpiredRefreshTokens | src/main/java/org/example/mobilyecommerce/repository/RefreshTokenRepository.java:42-48 | exactly the unflagged rows due after now survive; the count plus the survivors is the old table size |
| RefreshTokenRepository.DeleteAllByExpiryDateBefore | src/main/java/org/example/mobilyecommerce/repository/RefreshTokenRepository.java:53-56 | exactly the rows due at or after now survive, whatever their flag; the count plus the survivors is the old table size |
| RefreshTokenRepository.DeleteBeforeRemovesLess | src/main/java/org/example/mobilyecommerce/repository/RefreshTokenRepository.java:42-56 | the strict date delete never removes more rows than the flag-or-due delete at the same instant |
| RefreshTokenRepository.MarkThenDeleteKeepsSameRows | src/main/java/org/example/mobilyecommerce/repository/RefreshTokenRepository.java:29-48 | marking before the flag-or-due delete at the same instant leaves the same surviving rows as deleting alone |
| TokenHandler.AccessClaims | src/main/java/org/example/mobilyecommerce/config/iwt/TokenHandler.java:45-62 | an access token carries the user's id, username and role names, type "ACCESS" and subject "Mobily.cloud", issued now and expiring accessTime seconds later |
| TokenHandler.CreateAccessToken | src/main/java/org/example/mobilyecommerce/config/iwt/TokenHandler.java:45-62 | the token is the signature of claims carrying the user's id, username and roles, type "ACCESS", issued now and expiring the access lifetime later |
| TokenHandler.Screen | src/main/java/org/example/mobilyecommerce/config/iwt/TokenHandler.java:72-97 | a token passes the checks before the user lookup exactly when it parses, is not past its expiration, has type "ACCESS", is stored, and its row is neither expired now nor revoked; the claims are then those parsed |
| TokenHandler.CheckToken | src/main/java/org/example/mobilyecommerce/config/iwt/TokenHandler.java:72-141 | null exactly when the screen fails; after the screen, the user is accepted exactly when exactly one user has the token's username, and is that user; no such user raises UsernameNotFound("User not found: " + username), several raise the non-unique result |
| TokenHandler.CheckTokenIgnoresDevice | src/main/java/org/example/mobilyecommerce/config/iwt/TokenHandler.java:103-119 | the request's IP address and user agent never change the outcome, since the comparison is commented out |
| TokenHandler.SharedUsernameLocksOut | src/main/java/org/example/mobilyecommerce/config/iwt/TokenHandler.java:122-123 | once two users share a username, every screened token naming it makes the check raise a non-unique-result error |
| TokenHandler.CheckTokenById | src/main/java/org/example/mobilyecommerce/config/iwt/TokenHandler.java:72-141 | the check with the user found by the token's id claim: null exactly when the screen fails, an accepted user has the claimed id, and only a missing user raises |
| TokenHandler.IssuedTokenAuthenticatesOwner | src/main/java/org/example/mobilyecommerce/config/iwt/TokenHandler.java:45-62 | with lookup by id, a screened token issued to a stored user authenticates exactly that user, whatever names others share |
| TokenHandler.IssuedTokenAccepted | src/main/java/org/example/mobilyecommerce/config/iwt/TokenHandler.java:45-141 | a stored, live, unrevoked token issued to a user with a unique username is accepted as that user, given that parsing inverts signing |
| JwtFilter.PublicPathsSkipped | src/main/java/org/example/mobilyecommerce/config/filter/JwtFilter.java:111-120 | the login, signup and reset-password paths bypass the filter |
| JwtFilter.RefreshAndLogoutFiltered | src/main/java/org/example/mobilyecommerce/config/filter/JwtFilter.java:111-120 | the refresh and logout paths contain none of the three skipped paths, so they are filtered |
| JwtFilter.FirstHop | src/main/java/org/example/mobilyecommerce/config/filter/JwtFilter.java:40-43 | a value without a comma is kept as it is; otherwise the result is the trimmed text before the first comma, which holds no comma; a value made only of commas throws an index error |
| JwtFilter.ClientIp | src/main/java/org/example/mobilyecommerce/config/filter/JwtFilter.java:32-45 | X-Forwarded-For is used when present, non-empty and not "unknown" in any case; then X-Real-IP under the same test; else the remote address; the choice is cut to its first hop |
| JwtFilter.ClientIpIdempotent | src/main/java/org/example/mobilyecommerce/config/filter/JwtFilter.java:32-45 | an extracted address sent back as X-Forwarded-For is extracted unchanged |
| JwtFilter.ForwardedForWins | src/main/java/org/example/mobilyecommerce/config/filter/JwtFilter.java:33-36 | a usable X-Forwarded-For decides the address whatever X-Real-IP and the remote address are |
| JwtFilter.ClientIpFailsOnlyOnCommas | src/main/java/org/example/mobilyecommerce/config/filter/JwtFilter.java:32-45 | address extraction throws exactly when the chosen value is made only of commas |
| JwtFilter.BearerToken | src/main/java/org/example/mobilyecommerce/config/filter/JwtFilter.java:58-64 | a token is taken exactly when the header is present and starts with "Bearer "; it is shorter than the header by at least the prefix and has no trimmable character at either end |
| JwtFilter.BearerRoundTrip | src/main/java/org/example/mobilyecommerce/config/filter/JwtFilter.java:58-64 | a trimmed token sent as "Bearer " + token is extracted unchanged |
| JwtFilter.LowerCaseSchemeIgnored | src/main/java/org/example/mobilyecommerce/config/filter/JwtFilter.java:58 | the prefix test is case-sensitive, so a "bearer " header is treated as no token |
| JwtFilter.DoFilter | src/main/java/org/example/mobilyecommerce/config/filter/JwtFilter.java:48-109 | skipped paths pass untouched; no Bearer token passes unauthenticated; an accepted user is authenticated with one "ROLE_" authority per role; a null check answers 401 with the device message; an exception answers 401 with its message |
| JwtFilter.Status | src/main/java/org/example/mobilyecommerce/config/filter/JwtFilter.java:75-91 | the filter sets 401 exactly when it does not pass the request on |
| JwtFilter.SharedUsernameRejected | src/main/java/org/example/mobilyecommerce/config/filter/JwtFilter.java:75-91 | a live token of either of two users sharing a username is answered with a 401 carrying the non-unique-result message |
| JwtFilter.ByIdAuthenticatesOwner | src/main/java/org/example/mobilyecommerce/config/filter/JwtFilter.java:64-104 | with the lookup by id, a live token issued to a stored user and sent as a Bearer header authenticates exactly that user with that user's authorities |
| JwtFilter.AuthenticatedMeansLiveToken | src/main/java/org/example/mobilyecommerce/config/filter/JwtFilter.java:64-104 | an authenticated request carried an access token that parses, is not past its expiration, is stored, and is neither expired nor revoked; the principal is a stored user with the token's username |
| JwtFilter.FilterIgnoresDevice | src/main/java/org/example/mobilyecommerce/config/filter/JwtFilter.java:70-83 | although the rejection speaks of an unknown device, the outcome does not depend on the client address or user agent once an address can be extracted |
| JwtFilter.AdminAuthorityIffAdminRole | src/main/java/org/example/mobilyecommerce/config/filter/JwtFilter.java:95-97 | the authority "ROLE_ADMIN" is granted exactly to users holding the role "ADMIN", and a default user never gets "ROLE_USER" |
| AuthService.SaveAccessToken | src/main/java/org/example/mobilyecommerce/service/impl/AuthService.java:175-189 | the save succeeds exactly when the token string is new; the table grows by one row at the end holding the token, the user, both flags clear, created now and expiring accessTime later, with the request's address and agent |
| AuthService.RevokeAllUserAccessTokens | src/main/java/org/example/mobilyecommerce/service/impl/AuthService.java:194-204 | each of the user's rows with neither flag set gets both flags; no other row changes; afterwards the user has no valid token |
| AuthService.RevokeAllIdempotent | src/main/java/org/example/mobilyecommerce/service/impl/AuthService.java:194-204 | revoking a second time changes nothing |
| AuthService.Signup | src/main/java/org/example/mobilyecommerce/service/impl/AuthService.java:40-60 | a taken email is refused with "Username already exists: " + username, and several holders of it give the non-unique result; otherwise exactly one user is appended: the request with the encoded password, passed through the pre-persist hook, under a key no row had, the only user with that email; the access token is the one signed for that user and the refresh token the drawn one; each table gains exactly one row of the new user holding the returned token, unflagged, expiring its lifetime later, earlier rows untouched; the only other failure is a duplicate token; the tables stay valid |
| AuthService.SignupEmailUnique | src/main/java/org/example/mobilyecommerce/service/impl/AuthService.java:45-51 | after a signup the lookup by the new email finds exactly the new user |
| AuthService.Login | src/main/java/org/example/mobilyecommerce/service/impl/AuthService.java:84-104 | an authentication failure is passed on unchanged; after a successful authentication, the login succeeds exactly when the signed access token and the drawn refresh token are both new, and otherwise fails with a duplicate-key error; on success the users are unchanged and each token table gains exactly one row of the email's user holding the returned token, unflagged, expiring its lifetime later, earlier rows untouched |
| AuthService.SecondLoginInSameSecondFails | src/main/java/org/example/mobilyecommerce/service/impl/AuthService.java:97-100 | a second login of the same user within the same second signs identical claims and fails on the unique token column |
| AuthService.LoginTokenAccepted | src/main/java/org/example/mobilyecommerce/service/impl/AuthService.java:97-103 | the access token a login returns passes the token check for the user who logged in, throughout its lifetime, when parsing inverts signing and the username is not shared |
| AuthService.IssuedAccessAccepted | src/main/java/org/example/mobilyecommerce/config/iwt/TokenHandler.java:72-141 | a token row freshly appended by an issue, whose text parses back to the access claims of a user with an unshared username, is accepted by the token check for exactly that user from issue time until expiry |
| AuthService.LoginKeepsEarlierTokens | src/main/java/org/example/mobilyecommerce/service/impl/AuthService.java:97-100 | a login leaves every earlier session alone: each stored access token passes or fails the token screen exactly as before |
| AuthService.Refresh | src/main/java/org/example/mobilyecommerce/service/impl/AuthService.java:106-126 | an invalid refresh token gives TokenExpired("Refresh token is invalid or expired"); on success the same refresh token is returned, users and refresh tokens are unchanged, the earlier access tokens are exactly the owner's-live-tokens-revoked table (every other row untouched), and one unflagged row of the owner is appended holding the token signed for the owner, which is the owner's only valid access token |
| AuthService.RefreshRetiresOldTokens | src/main/java/org/example/mobilyecommerce/service/impl/AuthService.java:119-122 | after a refresh every access token its owner held before fails the check's screen |
| AuthService.RefreshLeavesOneLiveToken | src/main/java/org/example/mobilyecommerce/service/impl/AuthService.java:119-122 | after revoking and saving, the new access token is the owner's only live one |
| AuthService.ResetPassword | src/main/java/org/example/mobilyecommerce/service/impl/AuthService.java:128-147 | an unknown username gives UserNotFound and a username held by several users gives the non-unique result error; success happens exactly when one user has the name and the new password does not match the old hash; it rewrites only that user's password and touches no token |
| AuthService.ResetPasswordNeverFalse | src/main/java/org/example/mobilyecommerce/service/impl/AuthService.java:128-147 | the operation answers true or raises, never false |
| AuthService.ResetThenAuthenticate | src/main/java/org/example/mobilyecommerce/service/impl/AuthService.java:128-147 | after a reset, the user (sole holder of their email) authenticates with a password exactly when it matches the new hash: the new password works with a sound encoder, the old one only if it matches the new hash too |
| AuthService.Logout | src/main/java/org/example/mobilyecommerce/service/impl/AuthService.java:149-169 | the user's live access tokens are revoked and exactly the user's refresh tokens are deleted; users and other owners' rows are untouched |
| AuthService.LogoutIdempotent | src/main/java/org/example/mobilyecommerce/service/impl/AuthService.java:149-169 | a second logout changes nothing |
| AuthService.LogoutEndsSessions | src/main/java/org/example/mobilyecommerce/service/impl/AuthService.java:149-169 | after logout none of the user's access tokens passes the screen and none of the user's former refresh tokens can be refreshed |
| RefreshTokenServiceImpl.ReadableToken | src/main/java/org/example/mobilyecommerce/service/impl/RefreshTokenServiceImpl.java:108-121 | the token has 19 characters, a dash at every fifth position and alphabet characters elsewhere, and removing the dashes gives back the sixteen drawn characters |
| RefreshTokenServiceImpl.ReadableTokenSlots | src/main/java/org/example/mobilyecommerce/service/impl/RefreshTokenServiceImpl.java:113-118 | draw 4i+j lands at position 5i+j, and a dash precedes every group but the first |
| RefreshTokenServiceImpl.GenerateReadableToken | src/main/java/org/example/mobilyecommerce/service/impl/RefreshTokenServiceImpl.java:108-121 | the loop builds exactly the grouped token of the draws |
| RefreshTokenServiceImpl.AppendGroup | src/main/java/org/example/mobilyecommerce/service/impl/RefreshTokenServiceImpl.java:115-117 | the inner loop extends a token holding the first groups by the four characters of the next group, exactly as they stand in the grouped token |
| RefreshTokenServiceImpl.ReadableTokenInjective | src/main/java/org/example/mobilyecommerce/service/impl/RefreshTokenServiceImpl.java:108-121 | different draws never give the same token |
| RefreshTokenServiceImpl.CreateRefreshToken | src/main/java/org/example/mobilyecommerce/service/impl/RefreshTokenServiceImpl.java:25-48 | the save succeeds exactly when the drawn token is new; the appended row belongs to the user, holds the drawn token, is unflagged and expires refreshTime after now |
| RefreshTokenServiceImpl.GetByToken | src/main/java/org/example/mobilyecommerce/service/impl/RefreshTokenServiceImpl.java:50-54 | the row holding the string, or TokenNotFound("Refresh token not found") exactly when no row holds it |
| RefreshTokenServiceImpl.IsValidIff | src/main/java/org/example/mobilyecommerce/service/impl/RefreshTokenServiceImpl.java:63-73 | in a table with unique strings, a token is valid exactly when a row holds it, is unflagged, and expires after now |
| RefreshTokenServiceImpl.IsValidRejectsAtExpiryInstant | src/main/java/org/example/mobilyecommerce/service/impl/RefreshTokenServiceImpl.java:63-73 | at its own expiry instant an unflagged row is not expired by isExpired, yet isValid already rejects it |
| RefreshTokenServiceImpl.CreatedTokenIsValid | src/main/java/org/example/mobilyecommerce/service/impl/RefreshTokenServiceImpl.java:25-73 | a token just issued with a positive lifetime is found and is valid at the instant of issue |
| RefreshTokenServiceImpl.DeleteByUser | src/main/java/org/example/mobilyecommerce/service/impl/RefreshTokenServiceImpl.java:56-61 | the user's refresh tokens go and every other row stays |
| RefreshTokenServiceImpl.DeletedTokensAreGone | src/main/java/org/example/mobilyecommerce/service/impl/RefreshTokenServiceImpl.java:56-73 | after the delete none of the user's former tokens can be fetched or validated |
| RefreshTokenServiceImpl.MarkExpiredTokens | src/main/java/org/example/mobilyecommerce/service/impl/RefreshTokenServiceImpl.java:75-90 | rows keep their strings and positions; afterwards every row is flagged or due after now; the count is the number of rows changed |
| RefreshTokenServiceImpl.MarkPreservesIsValid | src/main/java/org/example/mobilyecommerce/service/impl/RefreshTokenServiceImpl.java:63-90 | marking at an instant never changes what isValid says at that instant |
| RefreshTokenServiceImpl.DeleteExpiredTokens | src/main/java/org/example/mobilyecommerce/service/impl/RefreshTokenServiceImpl.java:92-106 | every surviving row comes from the table and is not expired now; the count plus the survivors is the old size |
| RefreshTokenServiceImpl.DeletePreservesIsValid | src/main/java/org/example/mobilyecommerce/service/impl/RefreshTokenServiceImpl.java:63-106 | deleting at an instant never changes what isValid says at that instant |
| RefreshTokenService.StripUuidDashes | src/main/java/org/example/mobilyecommerce/service/impl/RefreshTokenService.java:70 | removing the dashes from a canonical UUID leaves its five digit groups joined, 32 hex digits |
| RefreshTokenService.TokenFormat | src/main/java/org/example/mobilyecommerce/service/impl/RefreshTokenService.java:69-77 | the token has 19 characters, a dash at every fifth position, the UUID's first sixteen hex digits elsewhere in order, and removing the dashes gives those digits back |
| RefreshTokenService.TokenFormatSlots | src/main/java/org/example/mobilyecommerce/service/impl/RefreshTokenService.java:72-75 | digit i lands at position i + i/4, and a dash follows every fourth digit but the last |
| RefreshTokenService.GenerateTokenFormat | src/main/java/org/example/mobilyecommerce/service/impl/RefreshTokenService.java:69-77 | the loop builds exactly the grouped token of the UUID's first sixteen digits |
| RefreshTokenService.CreateRefreshToken | src/main/java/org/example/mobilyecommerce/service/impl/RefreshTokenService.java:26-36 | the save succeeds exactly when the token is new; the appended row belongs to the user, holds the formatted token, is unflagged and expires seven days after now |
| RefreshTokenService.DeleteByUser | src/main/java/org/example/mobilyecommerce/service/impl/RefreshTokenService.java:41-44 | the user's refresh tokens go and every other row stays |
| RefreshTokenService.DeleteExpiredTokens | src/main/java/org/example/mobilyecommerce/service/impl/RefreshTokenService.java:50-54 | exactly the rows due at or after now survive |
| RefreshTokenService.ImplValidImpliesValid | src/main/java/org/example/mobilyecommerce/service/impl/RefreshTokenService.java:59-64 | whatever the newer service accepts as valid, this one accepts too |
| RefreshTokenService.FlaggedRowAcceptedOnlyHere | src/main/java/org/example/mobilyecommerce/service/impl/RefreshTokenService.java:59-64 | a flagged row that is not yet due is valid here and invalid in the newer service, because this check never reads the flag |
| RefreshTokenService.PurgeKeepsRowsDueNow | src/main/java/org/example/mobilyecommerce/service/impl/RefreshTokenService.java:50-64 | the purge keeps a row due exactly now, which isValid already rejects |
| TokenCleanupServiceImpl.MarkExpiredTokens | src/main/java/org/example/mobilyecommerce/service/impl/TokenCleanupServiceImpl.java:19-32 | a database fault is raised with the table untouched; otherwise each row keeps its string and is either unchanged or flagged, and afterwards every row is flagged or due after now |
| TokenCleanupServiceImpl.DeleteExpiredTokens | src/main/java/org/example/mobilyecommerce/service/impl/TokenCleanupServiceImpl.java:34-46 | a database fault is raised; otherwise exactly the rows with neither flag remain |
| TokenCleanupServiceImpl.CleanupNow | src/main/java/org/example/mobilyecommerce/service/impl/TokenCleanupServiceImpl.java:48-58 | a fault in either statement fails the whole cleanup; otherwise exactly the rows with both flags clear and due after now remain, in their order |
| TokenCleanupServiceImpl.CleanupNowIdempotent | src/main/java/org/example/mobilyecommerce/service/impl/TokenCleanupServiceImpl.java:48-58 | a second cleanup at the same instant changes nothing |
| TokenCleanupServiceImpl.CleanupNowKeepsExactlySurvivors | src/main/java/org/example/mobilyecommerce/service/impl/TokenCleanupServiceImpl.java:48-58 | a row remains after a cleanup exactly when it was in the table, has neither flag, and is due after now |
| TokenCleanupService.MarkExpiredTokens | src/main/java/org/example/mobilyecommerce/service/impl/TokenCleanupService.java:29-45 | a failure is caught and leaves the table as it was; otherwise every row is flagged or due after now |
| TokenCleanupService.DeleteExpiredTokens | src/main/java/org/example/mobilyecommerce/service/impl/TokenCleanupService.java:51-67 | a failure is caught and leaves the table as it was; otherwise only rows with neither flag remain |
| TokenCleanupService.CleanupNow | src/main/java/org/example/mobilyecommerce/service/impl/TokenCleanupService.java:72-81 | the immediate cleanup has no catch: it fails exactly when a statement fails, and otherwise leaves only rows not expired now |
| TokenCleanupService.AgreesWithImpl | src/main/java/org/example/mobilyecommerce/service/impl/TokenCleanupService.java:29-67 | without a database fault both classes' stages give the same table; with one, the other class raises where this one keeps the table |
| TokenCleanupService.StagesMatchCleanupNow | src/main/java/org/example/mobilyecommerce/service/impl/TokenCleanupService.java:29-81 | the two scheduled stages back to back at one instant leave what one immediate cleanup leaves |
| AuthController.ClientIp | src/main/java/org/example/mobilyecommerce/controller/AuthController.java:31-45 | extraction throws only an index error on an all-comma value, and a returned address never holds a comma |
| AuthController.ClientIpAgreesWithFilter | src/main/java/org/example/mobilyecommerce/controller/AuthController.java:31-45 | the controller's copy of the address extraction agrees with the filter's copy on every request |
| AuthController.Login | src/main/java/org/example/mobilyecommerce/controller/AuthController.java:50-59 | a failing address extraction fails the login before the credentials are checked; otherwise the service login runs with the extracted address and the User-Agent header |
| AuthController.CommaOnlyForwardedForBreaksLogin | src/main/java/org/example/mobilyecommerce/controller/AuthController.java:50-59 | the controller's own address extraction fails on an X-Forwarded-For of "," with an index error, before the credentials are looked at, and the handler table maps that error to 500; in the deployed chain the rate-limit filter fails first, outside the handler |
| AuthController.CommaOnlyForwardedForStopsRateLimiter | src/main/java/org/example/mobilyecommerce/config/filter/Bucket4jRateLimitFilter.java:61-64 | the rate-limit filter, which runs for every path, fails on an X-Forwarded-For of "," with the index error whatever the bucket state, so such a request never reaches a controller |
| AuthController.ResetPassword | src/main/java/org/example/mobilyecommerce/controller/AuthController.java:163-172 | the endpoint succeeds exactly when the service does, with the service's table changes |
| AuthController.ResetPasswordReply | src/main/java/org/example/mobilyecommerce/controller/AuthController.java:163-172 | 200 with the success text exactly when the service answers true, 400 exactly when it answers false |
| AuthController.ResetPasswordNeverBadRequest | src/main/java/org/example/mobilyecommerce/controller/AuthController.java:163-172 | the 400 branch is dead: success always answers 200 "Password reset successfully.", and a failure ends as 404 or 500 |
| GlobalExceptionHandler.Status | src/main/java/org/example/mobilyecommerce/exception/GlobalExceptionHandler.java:21-126 | 404 exactly for UsernameNotFound, TokenNotFound and UserNotFound; 401 exactly for the other authentication failures; 403 exactly for AuthorizationDenied; 400 exactly for validation, InvalidCredentials and TokenExpired; 409 exactly for UserAlreadyExists; 500 for everything else |
| GlobalExceptionHandler.Message | src/main/java/org/example/mobilyecommerce/exception/GlobalExceptionHandler.java:21-126 | the application's own exceptions keep their message; UsernameNotFound and the other authentication failures get fixed texts; every 500 gets the generic text |
| GlobalExceptionHandler.Handle | src/main/java/org/example/mobilyecommerce/exception/GlobalExceptionHandler.java:128-147 | the body carries the request path and the reason phrase of its status |
| GlobalExceptionHandler.HandleIsMostSpecific | src/main/java/org/example/mobilyecommerce/exception/GlobalExceptionHandler.java:21-126 | the table agrees, for every exception, with Spring's rule of taking the handler declared for the nearest superclass; so UsernameNotFoundException, although an AuthenticationException, gets the 404 handler |
| GlobalExceptionHandler.ResolveFrom | src/main/java/org/example/mobilyecommerce/exception/GlobalExceptionHandler.java:21-126 | a class with a handler of its own is answered by that handler; otherwise the search climbs to the superclass, ending at Exception |
| GlobalExceptionHandler.SecurityExceptionsResolve | src/main/java/org/example/mobilyecommerce/exception/GlobalExceptionHandler.java:21-58 | for the Spring Security exceptions, the table gives the response of the handler Spring resolves |
| GlobalExceptionHandler.ApplicationExceptionsResolve | src/main/java/org/example/mobilyecommerce/exception/GlobalExceptionHandler.java:60-114 | for validation and the application's own exceptions, the table gives the response of the handler Spring resolves |
| GlobalExceptionHandler.OtherExceptionsResolve | src/main/java/org/example/mobilyecommerce/exception/GlobalExceptionHandler.java:116-126 | every other exception falls through to the Exception handler |
| Bucket4jRateLimitFilter.CreateNewBucketAsWritten | src/main/java/org/example/mobilyecommerce/config/filter/Bucket4jRateLimitFilter.java:31-45 | the strict 3-per-10-minutes limit exactly for paths under "/api/auth/login" or "/api/auth/signup", the general 60-per-15-minutes limit for all others |
| Bucket4jRateLimitFilter.AsWrittenMissesVersionedRoutes | src/main/java/org/example/mobilyecommerce/config/filter/Bucket4jRateLimitFilter.java:33 | no path under "/api/v1/" gets the strict limit as the prefixes are written |
| Bucket4jRateLimitFilter.CreateNewBucket | src/main/java/org/example/mobilyecommerce/config/filter/Bucket4jRateLimitFilter.java:31-45 | the strict limit exactly for paths under the served login and signup routes |
| Bucket4jRateLimitFilter.LoginRouteGetsStrictLimit | src/main/java/org/example/mobilyecommerce/config/filter/Bucket4jRateLimitFilter.java:27-36 | the served login and signup routes get the strict limit here and the general one as written |
| Bucket4jRateLimitFilter.ClientKey | src/main/java/org/example/mobilyecommerce/config/filter/Bucket4jRateLimitFilter.java:61-72 | the key fails exactly when X-Forwarded-For is present and made only of commas; otherwise it is the trimmed first hop, or the remote address when the header is absent, then "\|" and the agent or "unknown-agent" |
| Bucket4jRateLimitFilter.PathsGetSeparateBuckets | src/main/java/org/example/mobilyecommerce/config/filter/Bucket4jRateLimitFilter.java:51-56 | one client's buckets for two different paths are different cache entries |
| Bucket4jRateLimitFilter.BucketKeyCollision | src/main/java/org/example/mobilyecommerce/config/filter/Bucket4jRateLimitFilter.java:52 | the "key:path" cache key is not injective: a ':' in the user agent or the path lets two clients share one bucket |
| Bucket4jRateLimitFilter.SingleHopKey | src/main/java/org/example/mobilyecommerce/config/filter/Bucket4jRateLimitFilter.java:63-68 | a forwarded header with a single trimmed hop puts that hop into the key as it is |
| Bucket4jRateLimitFilter.HopsGiveDistinctKeys | src/main/java/org/example/mobilyecommerce/config/filter/Bucket4jRateLimitFilter.java:52 | two different client addresses with the same agent and path never share a bucket key |
| Bucket4jRateLimitFilter.ForwardedForChoosesBucket | src/main/java/org/example/mobilyecommerce/config/filter/Bucket4jRateLimitFilter.java:61-72 | the address comes from X-Forwarded-For unchecked, so each different first hop a client sends opens a fresh bucket |
| Bucket4jRateLimitFilter.ResolveBucket | src/main/java/org/example/mobilyecommerce/config/filter/Bucket4jRateLimitFilter.java:51-56 | a cached bucket is reused unchanged; a missing one is created full, with the as-written limit of `createNewBucket` (or the served-prefix limit when so asked), and cached under the key |
| Bucket4jRateLimitFilter.TryConsume | src/main/java/org/example/mobilyecommerce/config/filter/Bucket4jRateLimitFilter.java:85 | after the refill, capped at capacity, one token is taken exactly when one is there; the remaining count is reported, else the wait |
| Bucket4jRateLimitFilter.DoFilter | src/main/java/org/example/mobilyecommerce/config/filter/Bucket4jRateLimitFilter.java:75-100 | fails exactly when the client key throws; only the request's own bucket entry changes, and a new one gets the as-written limit of `createNewBucket`; the request is admitted exactly when the refilled bucket, capped at capacity, holds a token, reporting one fewer as remaining; otherwise 429 with Retry-After the wait in whole seconds rounded down; bucket levels stay within capacity |
| Bucket4jRateLimitFilter.BurstDrainsBucket | src/main/java/org/example/mobilyecommerce/config/filter/Bucket4jRateLimitFilter.java:75-100 | without refill, n requests leave a fresh bucket holding the limit `createNewBucket` chose for the path minus n tokens |
| Bucket4jRateLimitFilter.FreshBucketAdmitsCapacity | src/main/java/org/example/mobilyecommerce/config/filter/Bucket4jRateLimitFilter.java:85-97 | without refill, a fresh bucket admits exactly the capacity `createNewBucket` chose for the path, each answer reporting one token fewer, and the next request gets 429 |
| Bucket4jRateLimitFilter.FourthLoginAdmittedAsWritten | src/main/java/org/example/mobilyecommerce/config/filter/Bucket4jRateLimitFilter.java:31-45 | a client's fourth login in a row is admitted as written with 56 tokens left, and refused with 429 under the served prefixes |
| ProjectSecurityConfig.Decide | src/main/java/org/example/mobilyecommerce/config/ProjectSecurityConfig.java:40-45 | the rule table is first-match: the first matching rule's access wins, and a path no rule matches needs authentication |
| ProjectSecurityConfig.PublicPatternsMatch | src/main/java/org/example/mobilyecommerce/config/ProjectSecurityConfig.java:41-43 | the permitAll patterns match exactly the four auth endpoints and the files, categories, products and home subtrees, each including its base path |
| ProjectSecurityConfig.PermitAllIffPublic | src/main/java/org/example/mobilyecommerce/config/ProjectSecurityConfig.java:40-45 | a path is open to everyone exactly when it is one of those public paths |
| ProjectSecurityConfig.AdminIffInvoicesOrSuppliers | src/main/java/org/example/mobilyecommerce/config/ProjectSecurityConfig.java:44 | exactly "/api/invoices" and "/api/suppliers" need the ADMIN role |
| ProjectSecurityConfig.AuthenticatedOtherwise | src/main/java/org/example/mobilyecommerce/config/ProjectSecurityConfig.java:45 | every other path needs an authenticated principal and nothing more |
| ProjectSecurityConfig.NestedInvoicePathAuthenticated | src/main/java/org/example/mobilyecommerce/config/ProjectSecurityConfig.java:44 | the admin rule matches only the bare paths, so "/api/invoices/5" needs no admin role |
| ProjectSecurityConfig.LogoutNeedsAuthentication | src/main/java/org/example/mobilyecommerce/config/ProjectSecurityConfig.java:41-45 | logout and the token clean-up endpoints need authentication but not the ADMIN role |
| ProjectSecurityConfig.Authorize | src/main/java/org/example/mobilyecommerce/config/ProjectSecurityConfig.java:40-56 | public paths are granted; other paths without a principal go to the entry point; a denial happens exactly for a principal lacking "ROLE_ADMIN" on the two admin paths |
| ProjectSecurityConfig.AdminPathNeedsAdminRole | src/main/java/org/example/mobilyecommerce/config/ProjectSecurityConfig.java:44 | a signed-in user reaches the admin paths exactly when ADMIN is among the user's roles |
| BrandingInfoService.GetBrandingInfo | src/main/java/org/example/mobilyecommerce/service/impl/BrandingInfoServiceImpl.java:23-27 | absent exactly when no record has id 1; otherwise the DTO of the record with id 1 |
| BrandingInfoService.Overwrite | src/main/java/org/example/mobilyecommerce/service/impl/BrandingInfoServiceImpl.java:44-52 | the id is kept and every other entity field takes the DTO's same-named component |
| BrandingInfoService.UpdateBrandingInfoAsWritten | src/main/java/org/example/mobilyecommerce/service/impl/BrandingInfoServiceImpl.java:40-68 | fails with "Branding info not found" exactly when record 1 is missing; the saved table keeps its size and every other record, and the next read returns the sent DTO with id 1; the answer has the instagram link in the whatsapp slot and vice versa, every other component as sent |
| BrandingInfoService.AsWrittenAnswerDisagreesWithStore | src/main/java/org/example/mobilyecommerce/service/impl/BrandingInfoServiceImpl.java:56-67 | when the two links differ, the as-written answer differs from what the next read returns |
| BrandingInfoService.UpdateBrandingInfo | src/main/java/org/example/mobilyecommerce/service/impl/BrandingInfoServiceImpl.java:40-68 | same failure; the answer is the sent DTO with id 1; only record 1 changes |
| BrandingInfoService.UpdateThenGet | src/main/java/org/example/mobilyecommerce/service/impl/BrandingInfoServiceImpl.java:23-27 | after the update, the next read returns exactly the answer the update gave |
| BrandingInfoService.UpdateWithCurrentIsInvisible | src/main/java/org/example/mobilyecommerce/service/impl/BrandingInfoServiceImpl.java:40-54 | writing back what was read changes nothing a later read can see |
| CategoryService.ExtractFileName | src/main/java/org/example/mobilyecommerce/service/impl/CategoryServiceImpl.java:166-174 | a URL starting with "/api/files/" and holding no second occurrence yields the rest; one holding the prefix later yields the text after the last occurrence, free of the prefix; one without it yields the slash-free tail after the last '/' |
| CategoryService.ExtractFileNameTakesLastOccurrence | src/main/java/org/example/mobilyecommerce/service/impl/CategoryServiceImpl.java:169-170 | of two overlapping occurrences of the prefix, the text after the later one is taken: "x/api/files/api/files/y" yields "y" |
| CategoryService.ExtractFileNameInvertsUpload | src/main/java/org/example/mobilyecommerce/service/impl/CategoryServiceImpl.java:166-168 | for a stored name without the prefix, the file name is recovered exactly from the URL the upload returned |
| CategoryService.ExtractFileNameRemovesEveryPrefix | src/main/java/org/example/mobilyecommerce/service/impl/CategoryServiceImpl.java:166-168 | a URL starting with the prefix loses every occurrence of it: the prefix, a name, the prefix again and a second name yield the two names joined |
| CategoryService.FindById | src/main/java/org/example/mobilyecommerce/service/impl/CategoryServiceImpl.java:117 | absent exactly when no row has the id; otherwise a row of the table with that id |
| CategoryService.ChildrenAreFiltered | src/main/java/org/example/mobilyecommerce/service/impl/CategoryServiceImpl.java:157 | the children of a category are exactly the rows naming it as parent, in table order |
| CategoryService.Descendants | src/main/java/org/example/mobilyecommerce/service/impl/CategoryServiceImpl.java:154-163 | a finished walk has used at least one level of the depth bound; what it lists is stated by DescendantsAreReachable |
| CategoryService.Walk | src/main/java/org/example/mobilyecommerce/service/impl/CategoryServiceImpl.java:158-161 | a finished loop lists at least one id per child, the first child's id first |
| CategoryService.WalkCovers | src/main/java/org/example/mobilyecommerce/service/impl/CategoryServiceImpl.java:158-161 | a finished loop lists every child's id and everything listed below each child |
| CategoryService.DescendantsAreReachable | src/main/java/org/example/mobilyecommerce/service/impl/CategoryServiceImpl.java:154-163 | once the walk finishes, an id is listed exactly when a chain of parent links leads from it up to the parent |
| CategoryService.BelowFinishes | src/main/java/org/example/mobilyecommerce/service/impl/CategoryServiceImpl.java:154-163 | when the walk from a category finishes, so does the walk from any category below it, with less depth |
| CategoryService.CycleNeverEnds | src/main/java/org/example/mobilyecommerce/service/impl/CategoryServiceImpl.java:154-163 | a category lying below itself through any cycle of parent links makes the walk below it never finish, whatever the depth bound |
| CategoryService.WalkFailsWithChild | src/main/java/org/example/mobilyecommerce/service/impl/CategoryServiceImpl.java:158-161 | the loop over the children does not finish when the walk below any one child does not |
| CategoryService.SelfParentNeverEnds | src/main/java/org/example/mobilyecommerce/service/impl/CategoryServiceImpl.java:154-163 | a category that is its own parent makes the descendant walk below it never finish |
| CategoryService.DescendantsFinish | src/main/java/org/example/mobilyecommerce/service/impl/CategoryServiceImpl.java:154-163 | on an acyclic tree the walk finishes once the depth bound exceeds the parent's rank |
| CategoryService.DescendantsRankBelow | src/main/java/org/example/mobilyecommerce/service/impl/CategoryServiceImpl.java:154-163 | on an acyclic tree every listed id lies strictly below the parent, so the parent itself is never listed |
| CategoryService.DescendantsFuelIrrelevant | src/main/java/org/example/mobilyecommerce/service/impl/CategoryServiceImpl.java:154-163 | once the walk finishes, a larger depth bound yields the same list |
| CategoryService.ResolveParent | src/main/java/org/example/mobilyecommerce/service/impl/CategoryServiceImpl.java:43-46 | a parent other than the fallback is recorded only when it names an existing category |
| CategoryService.NewCategory | src/main/java/org/example/mobilyecommerce/service/impl/CategoryServiceImpl.java:38-54 | the parent is set exactly when the requested parent id is present and exists; the image is the upload's URL when an icon came, else the DTO's; the names, external id and level come from the DTO |
| CategoryService.CreateKeepsParentsExist | src/main/java/org/example/mobilyecommerce/service/impl/CategoryServiceImpl.java:43-54 | creating a category keeps every recorded parent an existing category |
| CategoryService.UpdateCategory | src/main/java/org/example/mobilyecommerce/service/impl/CategoryServiceImpl.java:72-107 | absent exactly for an unknown id; names, external id and level from the DTO; a null parent id clears the parent, an unknown one keeps it, a known one sets it; an icon replaces the image and the old file is deleted exactly when there was one; no other row changes |
| CategoryService.ReplacingIconDeletesOldFile | src/main/java/org/example/mobilyecommerce/service/impl/CategoryServiceImpl.java:89-97 | replacing the icon of a category whose image came from an upload deletes exactly that uploaded file |
| CategoryService.UpdateKeepsParentsExist | src/main/java/org/example/mobilyecommerce/service/impl/CategoryServiceImpl.java:81-87 | updating keeps every recorded parent an existing category |
| CategoryService.SelfParentByUpdate | src/main/java/org/example/mobilyecommerce/service/impl/CategoryServiceImpl.java:82-84 | nothing stops an update naming the category its own parent, after which the walk below it never finishes |
| CategoryService.DeleteCategory | src/main/java/org/example/mobilyecommerce/service/impl/CategoryServiceImpl.java:116-131 | true exactly when the id exists and neither the image-file deletion (when there is an image) nor the row deletion throws; then that row is gone and every other row remains; after a caught exception the table is unchanged and the answer is false; the file is deleted exactly for an existing row with an image whose deletion does not throw, including when the row deletion then fails |
| CategoryService.DeleteThenFind | src/main/java/org/example/mobilyecommerce/service/impl/CategoryServiceImpl.java:116-131 | after a delete answered true the id is no longer found, and every other id is found exactly when it was before |
| CategoryService.DeleteLeafKeepsParentsExist | src/main/java/org/example/mobilyecommerce/service/impl/CategoryServiceImpl.java:116-131 | deleting a category no row names as parent keeps every recorded parent in the table |
| CategoryService.DeleteOrphansChildren | src/main/java/org/example/mobilyecommerce/service/impl/CategoryServiceImpl.java:124 | a delete that goes through while a child names the category leaves that child with a parent that no longer exists |
| ProductService.FindById | src/main/java/org/example/mobilyecommerce/service/impl/ProductServiceImpl.java:102 | absent exactly when no row has the id; otherwise a row of the table with that id |
| ProductService.Insert | src/main/java/org/example/mobilyecommerce/service/impl/ProductServiceImpl.java:39-62 | "Category not found" exactly when the category is missing; "Icons not found" when a named icon set is missing; otherwise one row is appended with the generated id, the category and icons asked for, the DTO's fields, and the uploaded URLs replacing the DTO's image lists only when files came; the generated id is new, so product ids stay unique |
| ProductService.UploadedUrls | src/main/java/org/example/mobilyecommerce/service/impl/ProductServiceImpl.java:142-153 | one URL per stored file, in order, each "/api/files/" followed by the stored name |
| ProductService.InsertIgnoresDtoId | src/main/java/org/example/mobilyecommerce/service/impl/ProductServiceImpl.java:44 | the id a client sends never reaches the table |
| ProductService.InsertedImagesNameTheirFiles | src/main/java/org/example/mobilyecommerce/service/impl/ProductServiceImpl.java:51-54 | each uploaded image URL of a new product leads back to its stored file name |
| ProductService.UpdateProductStatus | src/main/java/org/example/mobilyecommerce/service/impl/ProductServiceImpl.java:101-107 | true exactly when the product exists; only that row changes, and only its verification flag |
| ProductService.StatusReadBack | src/main/java/org/example/mobilyecommerce/service/impl/ProductServiceImpl.java:101-107 | after a successful status update the product reads back with the new flag |
| ProductService.UpdateProductStatusIdempotent | src/main/java/org/example/mobilyecommerce/service/impl/ProductServiceImpl.java:101-107 | setting the same status twice equals setting it once |
| ProductService.UpdateProduct | src/main/java/org/example/mobilyecommerce/service/impl/ProductServiceImpl.java:110-128 | absent exactly for an unknown id; the seven catalogue fields come from the DTO; images are replaced only by a non-empty list; id, category, counters, flag, icons and detail images are kept; no other row changes |
| ProductService.UpdateProductIdempotent | src/main/java/org/example/mobilyecommerce/service/impl/ProductServiceImpl.java:110-128 | repeating the same edit changes nothing more |
| ProductService.UpdateProductKeepsStatus | src/main/java/org/example/mobilyecommerce/service/impl/ProductServiceImpl.java:111-126 | an edit never changes the verification flag a status update set |
| ProductService.DeleteProductAsWritten | src/main/java/org/example/mobilyecommerce/service/impl/ProductServiceImpl.java:131-139 | only rows with the id go, every other row stays and no row is added; each stored image URL is passed as it is to the file deletion, resolved against the upload directory |
| ProductService.Resolve | src/main/java/org/example/mobilyecommerce/service/impl/FileServiceImpl.java:67 | a name stays inside the upload directory exactly when it does not start with '/'; an absolute path replaces the directory |
| ProductService.AsWrittenDeleteMissesUploads | src/main/java/org/example/mobilyecommerce/service/impl/FileServiceImpl.java:67 | an uploaded URL is an absolute path, so none of the files the upload wrote into the upload directory is deleted |
| ProductService.DeleteProduct | src/main/java/org/example/mobilyecommerce/service/impl/ProductServiceImpl.java:131-139 | only rows with the id go; every other row stays and no row is added; one deletion per stored image |
| ProductService.DeleteRemovesUploads | src/main/java/org/example/mobilyecommerce/service/impl/FileServiceImpl.java:46 | deleting a product removes exactly the files its images were uploaded to |
| ProductService.ParentCategoryIds | src/main/java/org/example/mobilyecommerce/service/impl/ProductServiceImpl.java:181-188 | the queried ids end with the parent, and exist exactly when the descendant walk finishes |
| ProductService.ParentListedOnce | src/main/java/org/example/mobilyecommerce/service/impl/ProductServiceImpl.java:185-186 | on an acyclic tree the list of a listing whose walk is not served from the cache exists and names the parent once, last |
| ProductService.ParentCategoryIdsAsWritten | src/main/java/org/example/mobilyecommerce/service/impl/ProductServiceImpl.java:185-186 | the listing with the child-id cache as written: a first listing queries what the uncached one does; a cached list comes back with the parent appended, and the cache then holds the queried list itself |
| ProductService.CachedListingRepeatsParent | src/main/java/org/example/mobilyecommerce/service/impl/CategoryServiceImpl.java:154 | a second listing of one parent with no category write between them queries the descendants followed by the parent twice |
| ProductService.ParentCategoryIdsCached | src/main/java/org/example/mobilyecommerce/service/impl/ProductServiceImpl.java:185-186 | the listing with the parent appended to a copy: the result ends with the parent, the cache gains only the parent's entry, and other entries are kept |
| ProductService.CachedListingAgrees | src/main/java/org/example/mobilyecommerce/service/impl/CategoryServiceImpl.java:154 | with the copy, a cache holding only walk results keeps doing so, and every listing queries exactly the ids the uncached listing does |
| ProductService.CachedListingNamesParentOnce | src/main/java/org/example/mobilyecommerce/service/impl/ProductServiceImpl.java:185-186 | with the copy, every listing on an acyclic tree, first or repeated, names the parent once, last |
| ProductService.InCategories | src/main/java/org/example/mobilyecommerce/service/impl/ProductServiceImpl.java:188 | exactly the products filed under one of the ids, drawn from the table |
| ProductService.ParentListingIncludesParent | src/main/java/org/example/mobilyecommerce/service/impl/ProductServiceImpl.java:185-188 | the parent-category listing includes products filed directly under the parent |
| GlobalExceptionHandler.JoinFieldMessages | src/main/java/org/example/mobilyecommerce/exception/GlobalExceptionHandler.java:65-68 | no field error gives "Validation failed"; otherwise the message starts with the first field message and ends with the last |
| GlobalExceptionHandler.JoinFieldMessagesIsJoined | src/main/java/org/example/mobilyecommerce/exception/GlobalExceptionHandler.java:65-68 | the reduction gives exactly the field messages in order, with "; " between neighbours |
| AuthController.PasswordReuseIsServerError | src/main/java/org/example/mobilyecommerce/service/impl/AuthService.java:135-138 | resending the current password fails with an exception the handler answers with 500 and the generic text, never the endpoint's 400 |

## Left out

- JWT signing and parsing (jjwt, HS512 as in section 3.2 of RFC 7518): `sign` and `parse` are oracles. The `exp` check of section 4.1.4 of RFC 7519 is written out in `TokenHandler.Screen`.
- AuthService.SaveAccessToken: the column lengths of Token.java (token 1000, ipAddress 45, userAgent 255 characters) are not modelled, so an over-long user agent or address that the database would refuse is stored; the save fails only on a duplicate token.
- TokenRepository.Insert: the same column lengths are not checked; only the unique token column is.
- AuthService.Logout: the catch that rethrows any failure as `RuntimeException("Logout failed: " + message)` is not modelled, since the modelled revoke and delete cannot fail.
- AuthController.CommaOnlyForwardedForBreaksLogin: the order of the servlet filter chain is not modelled as one pipeline. The 500 it states is what the handler table gives the controller's error, but a deployed client never sees that reply: the rate-limit filter fails first (`CommaOnlyForwardedForStopsRateLimiter`), and an exception escaping a filter does not reach GlobalExceptionHandler.
- Password hashing: `encode` and `matches` are oracles. The authentication manager itself is modelled, by `UserDetailsServiceConfigImpl.Authenticate`.
- `SecureRandom` and `UUID`: the drawn values are inputs.
- Bucket4j internals: greedy refill timing and the nanoseconds to wait are inputs (`refilled`, `waitNanos`). The bucket is an abstract counter.
- Concurrency: the `ConcurrentHashMap` of buckets and simultaneous requests are not modelled; the model is sequential.
- JPA and Hibernate plumbing: transactions, rollback-only marking after a caught exception, dirty checking, `merge` and id generation beyond "a fresh key".
  - A failed statement inside a `@Transactional` operation is modelled as an error with no state change.
- Caching (`@Cacheable`, `@CacheEvict`, `CacheConfig`) apart from the child-id cache behind the parent-category listing, CORS, the HTTP basic and form-login switches, and the custom entry point and access-denied handler bodies.
- ProductService.ParentListedOnce: states the listing whose descendant walk is not served from the cache. Repeated listings as written name the parent again each time (`CachedListingRepeatsParent`), because the parent is appended to the cached list itself. The products found are the same, since the query only tests membership in the id list.
- Errors.NonUniqueResultMessage: one fixed text stands in for the non-unique-result message, whose real form also names how many rows were returned.
- The `ErrorDetails` timestamp, and time finer than a second.
- File I/O: storage, upload failures (`IOException`) and the file service's "..", `normalize` and existence checks. Only the URL format "/api/files/" + name and the `Path.resolve` rule for absolute arguments are modelled.
- Paging and sorting of the product listings; `InCategories` keeps table order.
- Spring path-matcher subtleties: a pattern is an exact path or a `/**` subtree that includes its base path. Trailing slashes and URL encoding are ignored.
- Scheduling: `TokenCleanupScheduler` and the `@Scheduled` crons only call the modelled clean-up operations.
- The controllers other than `AuthController`'s address extraction, login and reset-password reply. That includes the hello, token-info and test-ip endpoints and `TokenCleanupTestController`.
- MapStruct mappers: `toEntity` and `toDto` are modelled as copying same-named fields. Nested nulls and the product-details list are left out.
- `BrandingInfoServiceImpl.save`, which copies a DTO through the mapper with no further logic.
- `UserRepository.java` is not part of this model. `findByEmail` and `findByUsername` are modelled by their derived-query meaning, as a lookup that may find no row, one row, or several rows.
- The refresh-token record has no creation time: `RefreshTokenServiceImpl` calls a `createdAt` builder setter that the entity does not declare.
- `RefreshTokenServiceImpl.deleteExpiredTokens` calls `deleteExpiredRefreshTokens()` with no argument, but the repository declares a `now` parameter. The model passes `now`.
- CategoryService.Descendants: Java recurses without a bound. Here a depth bound `fuel` stands in for that, and `None` means the walk did not finish within it. `DescendantsFuelIrrelevant` shows the bound never changes a finished result, and `CycleNeverEnds` shows that a walk from a category on a cycle of parent links never finishes.
- Null fields in request bodies: null strings are not modelled, and null lists are `None`.
- Integer widths: ids, counters and prices are unbounded integers. Java `long` overflow and `double` amounts are not modelled.
- Supplier, invoice, home-page and icon services: field-copy CRUD with no further logic.

## Findings

| source | as written | input that shows it | evidently intended | confidence | as-written member | corrected member |
|---|---|---|---|---|---|---|
| src/main/java/org/example/mobilyecommerce/config/filter/Bucket4jRateLimitFilter.java:33 | the strict limit applies to paths starting "/api/auth/login" or "/api/auth/signup" | a POST to "/api/v1/auth/login" gets the general 60-per-15-minutes bucket | the strict 3-per-10-minutes limit on the login and signup routes the application serves, "/api/v1/auth/..." | high, not executed | Bucket4jRateLimitFilter.AsWrittenMissesVersionedRoutes | Bucket4jRateLimitFilter.LoginRouteGetsStrictLimit |
| src/main/java/org/example/mobilyecommerce/service/impl/BrandingInfoServiceImpl.java:60-61 | the returned DTO is built positionally with the instagram link in the whatsapp slot and the whatsapp link in the instagram slot | an update sending whatsapp "w" and instagram "i" answers whatsapp "i", instagram "w", while the next read gives "w" and "i" | the answer equals the saved record's DTO | high, not executed | BrandingInfoService.AsWrittenAnswerDisagreesWithStore | BrandingInfoService.UpdateThenGet |
| src/main/java/org/example/mobilyecommerce/config/iwt/TokenHandler.java:122-123 | the token's user is looked up by username, which has no unique constraint | two users sharing a username: every live token of either is answered 401 | the user is looked up by the id claim the token carries | medium, not executed | TokenHandler.SharedUsernameLocksOut | TokenHandler.IssuedTokenAuthenticatesOwner |
| src/main/java/org/example/mobilyecommerce/service/impl/ProductServiceImpl.java:134-135 | each stored image URL "/api/files/x" is passed to `deleteFile` as it is; an absolute path makes `resolve` leave the upload directory | a product whose image was uploaded as "x" asks to delete "/api/files/x", not "x" in the upload directory | recover the file name from the URL first, as the category service does | medium, not executed | ProductService.AsWrittenDeleteMissesUploads | ProductService.DeleteRemovesUploads |
| src/main/java/org/example/mobilyecommerce/service/impl/ProductServiceImpl.java:185-186 | the parent id is added to the list `getAllChildCategoryIds` returned, which is the very list the child-id cache holds (CacheConfig keeps cached objects by reference) | two listings of one parent with no category write between them: the second queries the descendants followed by the parent twice, and the cached list grows by one on every listing | the parent is added to a copy, and the cache keeps the descendant list | medium, not executed | ProductService.CachedListingRepeatsParent | ProductService.CachedListingNamesParentOnce |
