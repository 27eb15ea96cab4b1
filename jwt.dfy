/**
 * The session claims of pkg/utils/jwt.go and GenerateJWTToken. Signing is the
 * library's; here it is an abstract function handed in by the caller.
 */
module Jwt {
  import opened Wrappers
  import opened Errors
  import opened Uuids
  import opened Models

  /** The families of jwt.SigningMethod; HMAC covers HS256, HS384 and HS512. */
  datatype Family = HMAC | RSA | RSAPSS | ECDSA | EdDSA | Unsecured

  datatype SigningMethod = SigningMethod(family: Family, alg: string)

  /** HMAC with SHA-256, section 3.2 of RFC 7518. */
  const HS256 := SigningMethod(HMAC, "HS256")

  /** A JSON value in a claim set. */
  datatype ClaimValue = Str(s: string) | Num(n: int) | Other

  /** The server configuration GenerateJWTToken and the identity gate read. */
  datatype Config = Config(jwtSecretKey: string)

  /** utils.Claims: e-mail, the id as a string, and the registered expiry of the embedded StandardClaims. */
  datatype Claims = Claims(email: string, id: string, expiresAt: int)

  /** A token lives sixty minutes, counted in seconds. */
  const TokenLifetime: int := 60 * 60

  /** The claims GenerateJWTToken issues for `user` at Unix time `now`. */
  function NewClaims(user: Row, now: Time): (c: Claims)
    ensures c.id == ToString(user.userId)
    ensures c.email == user.email
    ensures c.expiresAt == now + 3600
  {
    Claims(user.email, ToString(user.userId), now + TokenLifetime)
  }

  /**
   * The JSON object the claims encode to: "email" and "id" always, "exp" (section
   * 4.1.4 of RFC 7519) unless it is zero, which omitempty drops; the other
   * registered claims of StandardClaims are zero and dropped. There is no password.
   */
  function ClaimSet(c: Claims): (m: map<string, ClaimValue>)
    ensures m.Keys == {"email", "id"} + (if c.expiresAt != 0 then {"exp"} else {})
    ensures "password" !in m
    ensures m["id"] == Str(c.id) && m["email"] == Str(c.email)
    ensures c.expiresAt != 0 ==> m["exp"] == Num(c.expiresAt)
  {
    var base := map["email" := Str(c.email), "id" := Str(c.id)];
    if c.expiresAt != 0 then base["exp" := Num(c.expiresAt)] else base
  }

  /** token.SignedString: the compact token for a claim set under a method and key, or an error. */
  type Signer = (SigningMethod, map<string, ClaimValue>, string) -> Result<string, Error>

  /**
   * GenerateJWTToken: the claims of `user` signed with HS256 under the configured
   * secret; on a signing failure the token is "" and the error is returned as is.
   */
  function GenerateJWTToken(user: Row, cfg: Config, now: Time, sign: Signer): (r: (string, Option<Error>))
    ensures var signed := sign(HS256, ClaimSet(NewClaims(user, now)), cfg.jwtSecretKey);
            && (signed.Err? ==> r == ("", Some(signed.error)))
            && (signed.Ok? ==> r == (signed.value, None))
  {
    var claims := NewClaims(user, now);
    match sign(HS256, ClaimSet(claims), cfg.jwtSecretKey)
    case Ok(token) => (token, None)
    case Err(e) => ("", Some(e))
  }

  /** The issued `id` claim is a string that parses back to the user's identifier. */
  lemma IdClaimRoundTrip(user: Row, now: Time)
    ensures var m := ClaimSet(NewClaims(user, now));
            "id" in m && m["id"].Str? && Parse(m["id"].s) == Ok(user.userId)
  {
    ParseToString(user.userId);
  }
}
