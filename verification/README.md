# JwtTokenProvider, modelled in Dafny

A model of the JSON Web Token provider of the TravelMate server
(`JwtTokenProvider`). The provider issues an access/refresh token pair for a member, validates a
token, and rebuilds the authenticated identity from an access token. The token library (signing
with HS512, compact serialisation, signature and expiry checks) is not modelled. It is an oracle:
a `Signer` turns a claims record into a token string, and a `Parser` turns a token string into
exactly one `ParseOutcome`. That outcome is one of:

- `Verified(claims)`
- `Expired(claims)`
- `SecurityOrMalformed`
- `Unsupported`
- `IllegalArgument`
- `OtherJwtException`

What remains is the provider's own logic, which the model reproduces:

- the expiry arithmetic, on Java longs;
- the two catch ladders that map library exceptions to error codes;
- the expiry-tolerant claim extraction;
- the reconstruction of the principal, including `String.split(",")`.

Exceptions become `Err` results. A `Failure` is either `Api(code)`, the provider's own
`CustomApiException`, or `Unhandled`, a library exception that no catch clause names and that
propagates unchanged. The wall clock is the `now` parameter.

Files:

- `Results.dfy`: `Option` and `Result`.
- `JavaLong.dfy`: Java `long` and its wrapping addition.
- `JavaStrings.dfy`: `String.split(",")`, the join that inverts it, and its round trips.
- `Jwt.dfy`: the claims record and the parse-outcome oracle.
- `JwtTokenProvider.dfy`: the constants and the four operations.
- `TokenProperties.dfy`: lemmas that relate several operations.

Error codes are written in Dafny case: `InvalidJwtToken` is `INVALID_JWT_TOKEN`, and so on.
`Role.USER` is the string `"USER"`.

Two behaviours of the provider worth knowing:

- Authentication of an expired token does not fail. `getAuthentication` goes through
  `parseClaims`, which returns the claims of an expired token (lines 111-112). Only
  `validateToken` rejects expiry.
- The authorities are a list, in split order and with duplicates kept.

## Model

| member | source | states |
|---|---|---|
| JavaLong.Add | src/main/java/UMC/TravelMate/config/jwt/JwtTokenProvider.java:47 | `long` addition: equals the sum when it fits in 64 bits, otherwise wraps by 2^64; always congruent to the sum modulo 2^64 |
| JwtTokenProvider.AccessClaims | src/main/java/UMC/TravelMate/config/jwt/JwtTokenProvider.java:44-47 | the access token's claims: subject is the member id, `auth` is "USER", expiry is `now + 86_400_000` ms when that does not overflow |
| JwtTokenProvider.RefreshClaims | src/main/java/UMC/TravelMate/config/jwt/JwtTokenProvider.java:52-53 | the refresh token carries neither subject nor `auth`; expiry is `now + 1_296_000_000` ms when that does not overflow |
| JwtTokenProvider.GenerateToken | src/main/java/UMC/TravelMate/config/jwt/JwtTokenProvider.java:39-62 | grant type is always "bearer"; the access token is signed over the access claims and the refresh token over the refresh claims, with the same signer |
| JwtTokenProvider.ParseClaims | src/main/java/UMC/TravelMate/config/jwt/JwtTokenProvider.java:104-120 | succeeds exactly for a verified or an expired token, with that token's own claims; bad signature or malformed gives INVALID, unsupported gives UNSUPPORTED, illegal argument gives EMPTY_JWT_CLAIMS, each in both directions; never yields EXPIRED or UNAUTHORIZED |
| JwtTokenProvider.ValidateToken | src/main/java/UMC/TravelMate/config/jwt/JwtTokenProvider.java:82-101 | never returns false; succeeds exactly on a verified token; fails with EXPIRED exactly on an expired token; every other failure equals the one claim extraction reports for the same token; never UNAUTHORIZED |
| JwtTokenProvider.GetAuthentication | src/main/java/UMC/TravelMate/config/jwt/JwtTokenProvider.java:64-80 | extraction failures pass through unchanged; UNAUTHORIZED exactly when the extracted claims lack `auth`; on success the principal name is the subject, the authorities are `auth` split on commas (no piece holds a comma), shared by principal and authentication, with empty password and credentials |
| JavaStrings.JavaSplit | src/main/java/UMC/TravelMate/config/jwt/JwtTokenProvider.java:73 | `auth.split(",")`: comma-free pieces; no comma gives the whole string; otherwise no trailing empty piece, and the joined pieces are the string minus a run of trailing commas |
| JavaStrings.SplitAll | src/main/java/UMC/TravelMate/config/jwt/JwtTokenProvider.java:73 | the cut of `split(",")` at every comma, before trailing empties are dropped: at least one piece, and no piece contains a comma |
| JavaStrings.JavaSplitUnique | src/main/java/UMC/TravelMate/config/jwt/JwtTokenProvider.java:73 | the split is the only list of comma-free pieces, not ending in an empty one, whose join is the string up to trailing commas |
| JavaStrings.JoinSplitAll | src/main/java/UMC/TravelMate/config/jwt/JwtTokenProvider.java:73 | joining the raw comma-separated pieces with commas restores the string |
| JavaStrings.SplitAllJoin | src/main/java/UMC/TravelMate/config/jwt/JwtTokenProvider.java:73 | splitting the join of comma-free pieces restores the pieces |
| JavaStrings.DropTrailingEmpty | src/main/java/UMC/TravelMate/config/jwt/JwtTokenProvider.java:73 | the trailing-empty clean-up of a zero-limit split keeps a prefix, drops only empty pieces, and leaves no empty piece at the end |
| TokenProperties.RefreshOutlivesAccess | src/main/java/UMC/TravelMate/config/jwt/JwtTokenProvider.java:30-31 | without overflow: issuance < access expiry < refresh expiry, and the refresh window is 15 times the access window |
| TokenProperties.AccessExpiresAfterIssue | src/main/java/UMC/TravelMate/config/jwt/JwtTokenProvider.java:47 | the access token expires after issuance exactly when `now + one day` fits in a long |
| TokenProperties.IssuedAccessTokenAuthenticates | src/main/java/UMC/TravelMate/config/jwt/JwtTokenProvider.java:44-46 | if the library returns the issued access token, verified or expired, with the subject and `auth` it was signed with (whatever its expiry), the token authenticates the member with the single authority "USER" |
| TokenProperties.ExpiredAccessTokenDivergence | src/main/java/UMC/TravelMate/config/jwt/JwtTokenProvider.java:92-94 | for an issued access token the library reports expired, with its signed subject and `auth`, validation fails with EXPIRED while authentication succeeds for the member |
| TokenProperties.IssuedRefreshTokenDoesNotAuthenticate | src/main/java/UMC/TravelMate/config/jwt/JwtTokenProvider.java:52-55 | a refresh token returned verified or expired without `auth`, as it was signed, never authenticates (UNAUTHORIZED), yet a verified one validates |
| TokenProperties.ValidateTokenFailuresOneToOne | src/main/java/UMC/TravelMate/config/jwt/JwtTokenProvider.java:89-100 | two tokens that fail validation with the same failure failed to parse in the same way |
| TokenProperties.ValidateIsParseClaimsWithoutExpiry | src/main/java/UMC/TravelMate/config/jwt/JwtTokenProvider.java:82-120 | validation succeeds exactly when claim extraction succeeds and the token has not expired |

## Left out

- HS512 signing, JWS compact serialisation and signature checking are done by the token library. They are the `Signer` and `Parser` oracles.
- Key setup (constructor, lines 34-37) is left out. Base64 decoding of the secret and the library's rejection of a weak key happen in the library. The key is implicit in the oracles.
- The wall-clock read (line 41) is replaced by the `now` parameter.
- The library's own expiry check (lines 87 and 109) reads the clock too. A `Parser` fixes the instant of that check, so feeding one `Parser` to two operations means both run at the same instant. Whether the oracle answers `Verified` or `Expired` is not derived from the claims' `exp`.
- Logging (lines 90-99) is a side effect with no bearing on results.
- AccessClaims: the library stores `exp` in whole seconds, so a parsed token's expiry is the issued one truncated to seconds. The model keeps milliseconds and leaves that truncation to the oracle. The lemmas about issued tokens therefore ask only that the subject and `auth` come back as signed, not the expiry.
- AccessClaims: the library's builder does not set a null or blank subject, so a null or empty `memberId` yields no `sub` claim. The model takes `memberId` as a non-null string and always sets it.
- GetAuthentication: the `auth` claim is taken as a string. The `toString` rendering of a non-string `auth` value is left out.
- GetAuthentication: Spring Security's object constructors are modelled as plain records. Their own checks are not modelled: `User` rejects a null or empty username, and `SimpleGrantedAuthority` rejects a blank authority (such as the `" "` that `"USER, "` splits into), each with an `IllegalArgumentException`.
- GetAuthentication: Spring's `User` keeps its authorities as a sorted set. The model gives the principal the same list as the authentication.
- The `ErrorCode`, `CustomApiException`, `Role` and `JwtToken` classes are not part of this model. They appear as the datatypes `ErrorCode`, `Failure` and `JwtToken`, and as the string "USER".
- `GoogleMemberResponse` is a data holder with no behaviour.
