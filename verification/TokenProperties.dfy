/** Properties that relate several operations of the token provider: the
    expiry windows of the issued pair, what the provider makes of the tokens it
    issued, and how the two failure ladders relate. The parse outcomes of issued
    tokens are hypotheses, since signing and parsing belong to the library. */
module TokenProperties {
  import opened Results
  import opened JavaLong
  import opened Jwt
  import opened JwtTokenProvider

  /** Without overflow, the refresh token expires strictly after the access
      token, which expires strictly after issuance, and its window is fifteen
      times as long. */
  lemma RefreshOutlivesAccess(memberId: string, now: Long)
    requires now <= MaxLong - RefreshTokenExpireLength
    ensures var access := AccessClaims(memberId, now).exp.value;
            var refresh := RefreshClaims(now).exp.value;
            && now < access < refresh
            && refresh - now == 15 * (access - now)
  {
  }

  /** The access token expires after it was issued exactly when `now + one
      day` does not overflow a Java long; near the top of the range the sum
      wraps and the expiry lies before issuance. */
  lemma AccessExpiresAfterIssue(memberId: string, now: Long)
    ensures AccessClaims(memberId, now).exp.value > now <==> now <= MaxLong - AccessTokenExpireLength
  {
  }

  /** Claims-level round trip: if the library hands back the issued access
      token, verified or expired, with the subject and authorities the provider
      signed (whatever it made of the expiry), the token authenticates the
      member with the single authority "USER". */
  lemma IssuedAccessTokenAuthenticates(memberId: string, now: Long, sign: Signer, parse: Parser)
    requires var o := parse(GenerateToken(memberId, now, sign).accessToken);
             && (o.Verified? || o.Expired?)
             && o.claims.sub == AccessClaims(memberId, now).sub
             && o.claims.auth == AccessClaims(memberId, now).auth
    ensures GetAuthentication(parse, GenerateToken(memberId, now, sign).accessToken)
            == Ok(Authentication(UserDetails(Some(memberId), "", ["USER"]), "", ["USER"]))
  {
  }

  /** On an expired access token the two paths diverge: validation fails with
      `ExpiredJwtToken` while authentication still succeeds for the member. */
  lemma ExpiredAccessTokenDivergence(memberId: string, now: Long, sign: Signer, parse: Parser)
    requires var o := parse(GenerateToken(memberId, now, sign).accessToken);
             && o.Expired?
             && o.claims.sub == AccessClaims(memberId, now).sub
             && o.claims.auth == AccessClaims(memberId, now).auth
    ensures var token := GenerateToken(memberId, now, sign).accessToken;
            && ValidateToken(parse, token) == Err(Api(ExpiredJwtToken))
            && GetAuthentication(parse, token).Ok?
            && GetAuthentication(parse, token).value.principal.username == Some(memberId)
  {
    IssuedAccessTokenAuthenticates(memberId, now, sign, parse);
  }

  /** The refresh token carries no authorities, so once the library hands back
      its claims without an `auth` claim, verified or expired, it never
      authenticates; a verified one still validates. */
  lemma IssuedRefreshTokenDoesNotAuthenticate(memberId: string, now: Long, sign: Signer, parse: Parser)
    requires var o := parse(GenerateToken(memberId, now, sign).refreshToken);
             && (o.Verified? || o.Expired?)
             && o.claims.auth == RefreshClaims(now).auth
    ensures var token := GenerateToken(memberId, now, sign).refreshToken;
            && GetAuthentication(parse, token) == Err(Api(UnauthorizedJwtToken))
            && (parse(token).Verified? ==> ValidateToken(parse, token) == Ok(true))
  {
  }

  /** Two parse outcomes of the same kind. */
  predicate SameKind(a: ParseOutcome, b: ParseOutcome)
  {
    && a.Verified? == b.Verified?
    && a.Expired? == b.Expired?
    && a.SecurityOrMalformed? == b.SecurityOrMalformed?
    && a.Unsupported? == b.Unsupported?
    && a.IllegalArgument? == b.IllegalArgument?
    && a.OtherJwtException? == b.OtherJwtException?
  }

  /** Validation maps failing outcomes to failures one to one: two tokens that
      fail validation with the same failure failed to parse in the same way. */
  lemma ValidateTokenFailuresOneToOne(parse: Parser, t: string, u: string)
    requires ValidateToken(parse, t).Err? && ValidateToken(parse, u).Err?
    requires ValidateToken(parse, t).error == ValidateToken(parse, u).error
    ensures SameKind(parse(t), parse(u))
  {
  }

  /** Validation succeeds exactly when claim extraction succeeds on a token
      that has not expired. */
  lemma ValidateIsParseClaimsWithoutExpiry(parse: Parser, token: string)
    ensures ValidateToken(parse, token).Ok? <==> ParseClaims(parse, token).Ok? && !parse(token).Expired?
  {
  }
}
