/**
 * The one route behind the identity gate: GET /auth/me, the gate followed by the
 * GetMe handler of internal/auth/delivery/http/handlers.go. Only the context key
 * GetMe reads is modelled; response envelopes and logging are not.
 */
module Handlers {
  import opened Wrappers
  import opened Models
  import opened Jwt
  import opened UseCase
  import opened Middleware

  const StatusOK := 200

  datatype MeResponse = MeFound(status: int, user: User) | MeRefused(status: int)

  /** GetMe as written: it looks for the user under the key "User". */
  method GetMeAsWritten(c: EchoContext) returns (resp: MeResponse)
    ensures "User" in c.values ==> resp == MeFound(StatusOK, c.values["User"])
    ensures "User" !in c.values ==> resp == MeRefused(StatusUnauthorized)
  {
    if "User" in c.values {
      return MeFound(StatusOK, c.values["User"]);
    }
    return MeRefused(StatusUnauthorized);
  }

  /** GetMe reading the key "user" that the gate writes. */
  method GetMe(c: EchoContext) returns (resp: MeResponse)
    ensures "user" in c.values ==> resp == MeFound(StatusOK, c.values["user"])
    ensures "user" !in c.values ==> resp == MeRefused(StatusUnauthorized)
  {
    if "user" in c.values {
      return MeFound(StatusOK, c.values["user"]);
    }
    return MeRefused(StatusUnauthorized);
  }

  /** GET /auth/me as written: every request, with or without a good token, is answered 401. */
  method MeRouteAsWritten(uc: AuthUC, cfg: Config, lib: JwtLib, header: string) returns (status: int)
    requires uc.Valid()
    ensures status == StatusUnauthorized
  {
    var c := new EchoContext(header);
    var gate := AuthJWTMiddleware(uc, cfg, lib, c);
    if gate.Refused? {
      return gate.status;
    }
    var me := GetMeAsWritten(c);
    return me.status;
  }

  /** GET /auth/me with the key corrected: 200 and the gate's user exactly when the header names a stored user. */
  method MeRoute(uc: AuthUC, cfg: Config, lib: JwtLib, header: string) returns (status: int, user: Option<Row>)
    requires uc.Valid()
    ensures var id := ClaimedIdentity(header, cfg, lib);
            && (status == StatusOK <==> id.Some? && id.value in uc.repo.table)
            && (status != StatusOK ==> status == StatusUnauthorized && user == None)
            && (status == StatusOK ==> user == Some(Sanitized(uc.repo.table[id.value])))
  {
    var c := new EchoContext(header);
    var gate := AuthJWTMiddleware(uc, cfg, lib, c);
    if gate.Refused? {
      return gate.status, None;
    }
    var me := GetMe(c);
    return me.status, Some(me.user.Snapshot());
  }
}
