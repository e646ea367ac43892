/** The JSON Web Token library seen from the outside. Signing, compact
    serialisation and signature checking are not modelled: a `Signer` turns a
    claims record into a token string, and a `Parser` (already holding the
    provider's key) turns a token string into exactly one parse outcome. */
module Jwt {
  import opened Results
  import opened JavaLong

  /** The registered claims this provider reads or writes: the subject `sub`,
      the authorities claim `auth` (already rendered as a string) and the
      expiry `exp` in milliseconds since the epoch. An absent claim is `None`. */
  datatype Claims = Claims(sub: Option<string>, auth: Option<string>, exp: Option<Long>)

  /** What one call of the library's `parseClaimsJws` does. `Verified` returns
      the body; every other case is the exception it throws. `Expired` is the
      expired-token exception, which still carries the token's claims;
      `SecurityOrMalformed` covers a bad signature and a malformed token;
      `IllegalArgument` an empty or null token string; `OtherJwtException` any
      other exception of the library (a token not yet valid, for one). */
  datatype ParseOutcome =
    | Verified(claims: Claims)
    | Expired(claims: Claims)
    | SecurityOrMalformed
    | Unsupported
    | IllegalArgument
    | OtherJwtException

  type Signer = Claims -> string

  type Parser = string -> ParseOutcome
}
