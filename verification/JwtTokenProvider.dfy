/** The token provider: issues an access/refresh token pair for a member,
    validates a token, and rebuilds the authenticated identity from a token.
    Exceptions become `Err` results; the clock is the `now` parameter. */
module JwtTokenProvider {
  import opened Results
  import opened JavaLong
  import opened JavaStrings
  import opened Jwt

  const BearerType: string := "bearer"
  /** One day, in milliseconds. */
  const AccessTokenExpireLength: Long := 60 * 60 * 24 * 1000
  /** Fifteen days, in milliseconds. */
  const RefreshTokenExpireLength: Long := 60 * 60 * 24 * 15 * 1000
  /** The name of the member role every issued access token carries. */
  const UserRole: string := "USER"

  /** The error codes the provider raises. */
  datatype ErrorCode =
    | UnauthorizedJwtToken
    | InvalidJwtToken
    | ExpiredJwtToken
    | UnsupportedJwtToken
    | EmptyJwtClaims

  /** How a call fails: the provider's own exception with an error code, or a
      library exception that no catch clause names and that propagates as is. */
  datatype Failure = Api(code: ErrorCode) | Unhandled

  datatype JwtToken = JwtToken(grantType: string, accessToken: string, refreshToken: string)

  /** The user record built for the principal: name, empty password, authorities. */
  datatype UserDetails = UserDetails(username: Option<string>, password: string, authorities: seq<string>)

  /** The authentication handed to the caller: principal, empty credentials, authorities. */
  datatype Authentication = Authentication(principal: UserDetails, credentials: string, authorities: seq<string>)

  /** The claims of the access token issued at `now` for `memberId`. */
  function AccessClaims(memberId: string, now: Long): (c: Claims)
    ensures c.sub == Some(memberId) && c.auth == Some(UserRole)
    ensures c.exp.Some?
    ensures now <= MaxLong - 86_400_000 ==> c.exp.value == now + 86_400_000
  {
    Claims(Some(memberId), Some(UserRole), Some(Add(now, AccessTokenExpireLength)))
  }

  /** The claims of the refresh token issued at `now`: an expiry and nothing else. */
  function RefreshClaims(now: Long): (c: Claims)
    ensures c.sub.None? && c.auth.None?
    ensures c.exp.Some?
    ensures now <= MaxLong - 1_296_000_000 ==> c.exp.value == now + 1_296_000_000
  {
    Claims(None, None, Some(Add(now, RefreshTokenExpireLength)))
  }

  /** `generateToken`: both tokens are signed with the same signer, and the
      grant type is always "bearer". */
  function GenerateToken(memberId: string, now: Long, sign: Signer): (t: JwtToken)
    ensures t.grantType == "bearer"
    ensures t.accessToken == sign(AccessClaims(memberId, now))
    ensures t.refreshToken == sign(RefreshClaims(now))
  {
    var accessToken := sign(AccessClaims(memberId, now));
    var refreshToken := sign(RefreshClaims(now));
    JwtToken(BearerType, accessToken, refreshToken)
  }

  /** `parseClaims`: the claims of a verified or of an expired token; every
      other outcome fails with the same code `ValidateToken` uses for it. */
  function ParseClaims(parse: Parser, token: string): (r: Result<Claims, Failure>)
    ensures r.Ok? <==> parse(token).Verified? || parse(token).Expired?
    ensures r.Ok? ==> r.value == parse(token).claims
    ensures r == Err(Api(InvalidJwtToken)) <==> parse(token).SecurityOrMalformed?
    ensures r == Err(Api(UnsupportedJwtToken)) <==> parse(token).Unsupported?
    ensures r == Err(Api(EmptyJwtClaims)) <==> parse(token).IllegalArgument?
    ensures r == Err(Unhandled) <==> parse(token).OtherJwtException?
    ensures r != Err(Api(ExpiredJwtToken)) && r != Err(Api(UnauthorizedJwtToken))
  {
    match parse(token)
    case Verified(claims) => Ok(claims)
    case Expired(claims) => Ok(claims)
    case SecurityOrMalformed => Err(Api(InvalidJwtToken))
    case Unsupported => Err(Api(UnsupportedJwtToken))
    case IllegalArgument => Err(Api(EmptyJwtClaims))
    case OtherJwtException => Err(Unhandled)
  }

  /** `validateToken`: succeeds only on a verified token, and then with `true`;
      it never yields `false`. An expired token fails with `ExpiredJwtToken`,
      and any other failure is the one `ParseClaims` reports for that token. */
  function ValidateToken(parse: Parser, token: string): (r: Result<bool, Failure>)
    ensures r.Ok? ==> r.value
    ensures r.Ok? <==> parse(token).Verified?
    ensures r == Err(Api(ExpiredJwtToken)) <==> parse(token).Expired?
    ensures r.Err? && !parse(token).Expired? ==> ParseClaims(parse, token) == Err(r.error)
    ensures r != Err(Api(UnauthorizedJwtToken))
  {
    match parse(token)
    case Verified(_) => Ok(true)
    case SecurityOrMalformed => Err(Api(InvalidJwtToken))
    case Expired(_) => Err(Api(ExpiredJwtToken))
    case Unsupported => Err(Api(UnsupportedJwtToken))
    case IllegalArgument => Err(Api(EmptyJwtClaims))
    case OtherJwtException => Err(Unhandled)
  }

  /** `getAuthentication`: a failure of `ParseClaims` passes through; claims
      without `auth` fail with `UnauthorizedJwtToken`; otherwise the principal
      is the subject and the authorities are the comma-separated pieces of
      `auth`, shared by the principal and the authentication. */
  function GetAuthentication(parse: Parser, accessToken: string): (r: Result<Authentication, Failure>)
    ensures ParseClaims(parse, accessToken).Err? ==> r == Err(ParseClaims(parse, accessToken).error)
    ensures r == Err(Api(UnauthorizedJwtToken)) <==>
              ParseClaims(parse, accessToken).Ok? && ParseClaims(parse, accessToken).value.auth.None?
    ensures r.Ok? <==> ParseClaims(parse, accessToken).Ok? && ParseClaims(parse, accessToken).value.auth.Some?
    ensures r.Ok? ==>
              var c := parse(accessToken).claims;
              && r.value.principal.username == c.sub
              && r.value.authorities == JavaSplit(c.auth.value)
              && r.value.principal.authorities == r.value.authorities
              && r.value.principal.password == "" && r.value.credentials == ""
    ensures r.Ok? ==> forall i :: 0 <= i < |r.value.authorities| ==> Comma !in r.value.authorities[i]
  {
    var claims :- ParseClaims(parse, accessToken);
    if claims.auth.None? then
      Err(Api(UnauthorizedJwtToken))
    else
      var authorities := JavaSplit(claims.auth.value);
      var principal := UserDetails(claims.sub, "", authorities);
      Ok(Authentication(principal, "", authorities))
  }
}
