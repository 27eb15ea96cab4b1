/**
 * The per-request identity gate of internal/middleware/auth.go: the split of the
 * Authorization header, the shape checks on the token and its `id` claim, and the
 * binding of the resolved user into the request's Echo context.
 *
 * golang-jwt v5's Parse is reduced to three abstract steps (decoding, the signature
 * check, the time-claim check) between which the key function of lines 63-69 runs.
 */
module Middleware {
  import opened Wrappers
  import opened Errors
  import opened Uuids
  import opened Models
  import opened SqlQueries
  import opened Store
  import opened Jwt
  import opened UseCase
  import Text

  /** What the Authorization header yields: nothing, a wrong number of parts, or the second part. */
  datatype HeaderCheck = MissingHeader | MalformedHeader | BearerToken(token: string)

  /** Lines 28-36: split on every space; exactly two parts are needed and the first is ignored. */
  function CheckHeader(header: string): (h: HeaderCheck)
    ensures h == MissingHeader <==> header == ""
    ensures h.BearerToken? <==> header != "" && Text.Count(header, ' ') == 1
  {
    if header == "" then MissingHeader
    else
      var parts := Text.Split(header, ' ');
      if |parts| != 2 then MalformedHeader else BearerToken(parts[1])
  }

  /** Whatever the first word, a header of two space-free words yields the second as the token. */
  lemma SchemeIgnored(scheme: string, token: string)
    requires ' ' !in scheme && ' ' !in token
    ensures CheckHeader(scheme + " " + token) == BearerToken(token)
  {
    Text.SplitAtFirst(scheme, token, ' ');
    Text.SplitNoSeparator(token, ' ');
    assert scheme + " " + token == scheme + [' '] + token;
  }

  /** Conversely, an accepted header is some space-free word, one space, and the token. */
  lemma AcceptedHeaderShape(header: string) returns (scheme: string)
    requires CheckHeader(header).BearerToken?
    ensures ' ' !in scheme && ' ' !in CheckHeader(header).token
    ensures header == scheme + " " + CheckHeader(header).token
  {
    var parts := Text.Split(header, ' ');
    scheme := parts[0];
    Text.JoinSplit(header, ' ');
    assert parts[1..] == [parts[1]];
  }

  /** Two consecutive spaces give three parts and the header is refused. */
  lemma DoubleSpaceRefused()
    ensures CheckHeader("Bearer  abc") == MalformedHeader
  {
    Text.SplitNoSeparator("abc", ' ');
    assert " abc" == "" + [' '] + "abc";
    Text.SplitAtFirst("", "abc", ' ');
    assert "Bearer  abc" == "Bearer" + [' '] + " abc";
    Text.SplitAtFirst("Bearer", " abc", ' ');
  }

  /** What jwt.Parse decodes from a token string before verifying anything. */
  datatype RawToken = RawToken(signing: SigningMethod, claims: map<string, ClaimValue>)

  /** jwt.Token after Parse: the method, the MapClaims and the Valid flag. */
  datatype Token = Token(signing: SigningMethod, claims: map<string, ClaimValue>, valid: bool)

  /** The pieces of golang-jwt v5 that the gate relies on, left abstract. */
  datatype JwtLib = JwtLib(
    decode: string -> Option<RawToken>,              // split, base64 and JSON decoding
    signatureOk: (string, string) -> bool,           // the token's signature checks under the key
    claimsValid: map<string, ClaimValue> -> bool)    // exp and the other time claims hold now

  /** Lines 63-69: only an HMAC-signed token gets the configured secret as its key. */
  function KeyFunc(raw: RawToken, secret: string): (r: Result<string, Error>)
    ensures r.Ok? <==> raw.signing.family == HMAC
    ensures r.Ok? ==> r.value == secret
    ensures r.Err? ==> r.error == Msg("unexpected signin method " + raw.signing.alg)
  {
    if raw.signing.family != HMAC then Err(Msg("unexpected signin method " + raw.signing.alg))
    else Ok(secret)
  }

  /** jwt.Parse with the key function above: decode, ask for the key, check signature, then time claims. */
  function ParseToken(lib: JwtLib, tokenString: string, secret: string): (r: Result<Token, Error>)
    ensures r.Ok? <==>
              && lib.decode(tokenString).Some?
              && lib.decode(tokenString).value.signing.family == HMAC
              && lib.signatureOk(tokenString, secret)
              && lib.claimsValid(lib.decode(tokenString).value.claims)
    ensures r.Ok? ==> r.value.valid
    ensures r.Ok? ==> r.value.signing == lib.decode(tokenString).value.signing
                      && r.value.claims == lib.decode(tokenString).value.claims
  {
    match lib.decode(tokenString)
    case None => Err(TokenMalformed)
    case Some(raw) =>
      match KeyFunc(raw, secret)
      case Err(e) => Err(Wrapped("token is unverifiable: error while executing keyfunc", Some(e)))
      case Ok(key) =>
        if !lib.signatureOk(tokenString, key) then Err(TokenSignatureInvalid)
        else if !lib.claimsValid(raw.claims) then Err(TokenInvalidClaims)
        else Ok(Token(raw.signing, raw.claims, true))
  }

  /** Lines 57-87: the identifier a token string names, or why it is refused. */
  function VerifyToken(tokenString: string, secret: string, lib: JwtLib): (r: Result<Uuid, Error>)
    ensures tokenString == "" ==> r == Err(InvalidJWTToken)
    ensures r.Ok? ==>
              && tokenString != ""
              && lib.decode(tokenString).Some?
              && var claims := lib.decode(tokenString).value.claims;
              && lib.decode(tokenString).value.signing.family == HMAC
              && lib.signatureOk(tokenString, secret)
              && lib.claimsValid(claims)
              && "id" in claims && claims["id"].Str?
              && Parse(claims["id"].s) == Ok(r.value)
  {
    if tokenString == "" then Err(InvalidJWTToken)
    else
      match ParseToken(lib, tokenString, secret)
      case Err(e) => Err(e)
      case Ok(token) =>
        if !token.valid then Err(InvalidJWTToken)
        else if "id" !in token.claims || !token.claims["id"].Str? then Err(InvalidJWTClaims)
        else Parse(token.claims["id"].s)
  }

  /**
   * A token not signed with HMAC is refused whatever the secret and before the signature is
   * checked; an error with the key function's text is on the refusal's chain.
   */
  lemma NonHmacRefusedBeforeSecret(decode: string -> Option<RawToken>, t: string,
                                   sig1: (string, string) -> bool, valid1: map<string, ClaimValue> -> bool, s1: string,
                                   sig2: (string, string) -> bool, valid2: map<string, ClaimValue> -> bool, s2: string)
    requires t != "" && decode(t).Some? && decode(t).value.signing.family != HMAC
    ensures VerifyToken(t, s1, JwtLib(decode, sig1, valid1)) == VerifyToken(t, s2, JwtLib(decode, sig2, valid2))
    ensures VerifyToken(t, s1, JwtLib(decode, sig1, valid1)).Err?
    ensures Is(VerifyToken(t, s1, JwtLib(decode, sig1, valid1)).error,
               Msg("unexpected signin method " + decode(t).value.signing.alg))
  {
  }

  /** The claim checks: a missing or non-string id is InvalidJWTClaims; a string id must parse as a UUID. */
  lemma ClaimShapeChecks(t: string, secret: string, lib: JwtLib)
    requires t != "" && ParseToken(lib, t, secret).Ok?
    ensures var claims := ParseToken(lib, t, secret).value.claims;
            && ("id" !in claims || !claims["id"].Str? ==> VerifyToken(t, secret, lib) == Err(InvalidJWTClaims))
            && ("id" in claims && claims["id"].Str? ==> VerifyToken(t, secret, lib) == Parse(claims["id"].s))
  {
  }

  /** A token carrying the claims issued for `user`, once it decodes and checks out, names that user. */
  lemma IssuedTokenNamesUser(t: string, secret: string, lib: JwtLib, user: Row, now: Time)
    requires t != ""
    requires lib.decode(t) == Some(RawToken(HS256, ClaimSet(NewClaims(user, now))))
    requires lib.signatureOk(t, secret) && lib.claimsValid(ClaimSet(NewClaims(user, now)))
    ensures VerifyToken(t, secret, lib) == Ok(user.userId)
  {
    IdClaimRoundTrip(user, now);
  }

  /** The identifier the whole header names, if any. */
  function ClaimedIdentity(header: string, cfg: Config, lib: JwtLib): Option<Uuid> {
    match CheckHeader(header)
    case BearerToken(t) =>
      (match VerifyToken(t, cfg.jwtSecretKey, lib) case Ok(id) => Some(id) case Err(_) => None)
    case _ => None
  }

  /** "Bearer " passes the split but its empty token is refused. */
  lemma EmptyTokenRefused(cfg: Config, lib: JwtLib)
    ensures CheckHeader("Bearer ") == BearerToken("")
    ensures ClaimedIdentity("Bearer ", cfg, lib) == None
  {
    assert "Bearer" + " " + "" == "Bearer ";
    SchemeIgnored("Bearer", "");
    assert VerifyToken("", cfg.jwtSecretKey, lib).Err?;
  }

  /** The body of every 401 the gate sends: httpErrors.NewUnauthorizedError(httpErrors.Unauthorized). */
  datatype ErrorBody = UnauthorizedBody

  const StatusUnauthorized := 401

  /** What the gate does with a request: answers 401, or hands it to the next handler. */
  datatype Response = Refused(status: int, body: ErrorBody) | Forwarded

  /** The parts of echo.Context the gate reads and writes. */
  class EchoContext {
    /** The request's Authorization header ("" when absent). */
    const authorization: string
    /** The values stored with c.Set. */
    var values: map<string, User>
    /** The user stored in the request's context.Context under utils.UserCtxKey. */
    var requestUser: Option<User>
    /** How many times the next handler has run on this context. */
    var nextCalls: nat

    constructor (authorization: string)
      ensures this.authorization == authorization
      ensures values == map[] && requestUser == None && nextCalls == 0
    {
      this.authorization := authorization;
      values, requestUser, nextCalls := map[], None, 0;
    }
  }

  /**
   * validateJWTToken: on success the resolved user, its password blanked, is stored
   * under "user" and in the request context; on any failure the context is untouched.
   */
  method ValidateJWTToken(tokenString: string, uc: AuthUC, c: EchoContext, cfg: Config, lib: JwtLib)
    returns (err: Option<Error>)
    requires uc.Valid()
    modifies c`values, c`requestUser
    ensures VerifyToken(tokenString, cfg.jwtSecretKey, lib).Err? ==>
              err == Some(VerifyToken(tokenString, cfg.jwtSecretKey, lib).error)
              && c.values == old(c.values) && c.requestUser == old(c.requestUser)
    ensures VerifyToken(tokenString, cfg.jwtSecretKey, lib).Ok? ==>
              var id := VerifyToken(tokenString, cfg.jwtSecretKey, lib).value;
              && (id !in uc.repo.table ==>
                    err == Some(Wrapped(GetByIdOp + ".QueryRowxContext", None))
                    && c.values == old(c.values) && c.requestUser == old(c.requestUser))
              && (id in uc.repo.table ==>
                    && err == None && "user" in c.values && fresh(c.values["user"])
                    && c.values == old(c.values)["user" := c.values["user"]]
                    && c.requestUser == Some(c.values["user"])
                    && c.values["user"].Snapshot() == Sanitized(uc.repo.table[id]))
  {
    var verified := VerifyToken(tokenString, cfg.jwtSecretKey, lib);
    if verified.Err? {
      return Some(verified.error);
    }
    var found := uc.GetByID(verified.value);
    if found.Err? {
      return Some(found.error);
    }
    c.values := c.values["user" := found.value];
    c.requestUser := Some(found.value);
    return None;
  }

  /**
   * AuthJWTMiddleware: the request goes on to the next handler, exactly once, when the
   * header names a user the table holds; otherwise it is answered with the one
   * generic 401 and neither the context nor the handler is touched.
   */
  method AuthJWTMiddleware(uc: AuthUC, cfg: Config, lib: JwtLib, c: EchoContext) returns (resp: Response)
    requires uc.Valid()
    modifies c
    ensures var id := ClaimedIdentity(c.authorization, cfg, lib);
            && (id.Some? && id.value in uc.repo.table ==>
                  && resp == Forwarded && c.nextCalls == old(c.nextCalls) + 1
                  && "user" in c.values && fresh(c.values["user"])
                  && c.values == old(c.values)["user" := c.values["user"]]
                  && c.requestUser == Some(c.values["user"])
                  && c.values["user"].Snapshot() == Sanitized(uc.repo.table[id.value]))
            && (id.None? || id.value !in uc.repo.table ==>
                  && resp == Refused(StatusUnauthorized, UnauthorizedBody)
                  && c.nextCalls == old(c.nextCalls)
                  && c.values == old(c.values) && c.requestUser == old(c.requestUser))
  {
    var header := CheckHeader(c.authorization);
    if !header.BearerToken? {
      return Refused(StatusUnauthorized, UnauthorizedBody);
    }
    var err := ValidateJWTToken(header.token, uc, c, cfg, lib);
    if err.Some? {
      return Refused(StatusUnauthorized, UnauthorizedBody);
    }
    c.nextCalls := c.nextCalls + 1;
    return Forwarded;
  }
}
