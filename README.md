# Account core of text-lexicon-go, modelled in Dafny

text-lexicon-go is a layered REST backend for user accounts. It offers registration, login with JSON Web Token issuance, profile update, deletion, lookup by id, and a per-request identity gate in front of `GET /auth/me`. This project models the account core and proves properties of it:

- **Models** (`models.dfy`): the `models.User` record as a class. Its pointer-receiver methods rewrite `Email` and `Password` in place.
- **SqlQueries** (`sql_queries.dfy`): the statements built in `sql_queries.go`, written as pure row effects. For each statement the model says which columns it writes, which it reads back, and which column its WHERE clause is keyed on.
- **Store** (`store.dfy`): the `users` table behind the repository. It is a class holding a map from `user_id` to row. Each method applies its statement's row effect and fails the way `pr_repository.go` reports failure.
- **Jwt** (`jwt.dfy`): the claim set and `GenerateJWTToken`.
- **UseCase** (`usecase.dfy`): `authUC`. Register, Login, Update, Delete and GetByID are guarded step sequences over the store.
- **Middleware** (`middleware.dfy`): `AuthJWTMiddleware` and `validateJWTToken`. This covers the header split, the key function, the claim checks and the binding into the Echo context.
- **Handlers** (`handlers.dfy`): only the context key that `GetMe` reads, for the finding below.
- Support modules: **Text** (ASCII `strings.TrimSpace`, `strings.ToLower`, `strings.Split`), **Uuids** (`uuid.UUID.String` and `uuid.Parse`), **Errors** (Go error values with `%w` wrapping and `errors.Is`) and **Wrappers** (Option and Result).

Foreign pieces are handed in as function values. bcrypt hashing and comparison are `Hasher` and `Comparer`. Token signing is `Signer`. The three steps of golang-jwt v5's `Parse` are the fields of `JwtLib`. The clock (`now`) and the `user_id` that the table's default generates (`generatedId`) are parameters.

Points where the code behaves otherwise than one might expect; the model follows the code:
- Login never writes `login_date`.
- A delete of a missing id reports a wrapped `sql.ErrNoRows`, not a dedicated not-found error.
- The registration pre-check looks up the e-mail as submitted, before it is trimmed and lower-cased.
- Login reuses the operation tag `auth.userCase.register` in its error messages (usercase.go:58).

The model assumes a unique constraint on `email` and a generated default for `user_id`; the Go code shows neither.

## Model

| member | source | states |
|---|---|---|
| `Errors.Root` | internal/auth/repository/pr_repository.go:96 | the root cause reached by unwrapping is on the error's `errors.Is` chain and is not itself a wrapper |
| `Errors.NilCauseIsLost` | internal/auth/repository/pr_repository.go:114 | an error built with a nil `%w` operand has nothing on its chain but itself and no root cause, so the lookup failure's cause is lost |
| `Text.TrimSpace` | internal/models/user.go:52 | the result has no white space at either end |
| `Text.TrimLeft` | internal/models/user.go:51 | the result is a suffix of the input, everything dropped is white space, and it does not start with white space |
| `Text.TrimRight` | internal/models/user.go:51 | the result is a prefix of the input, everything dropped is white space, and it does not end with white space |
| `Text.TrimSpaceKeepsInterior` | internal/models/user.go:52 | trimming white space around a non-empty trimmed body gives back exactly that body |
| `Text.ToLower` | internal/models/user.go:62 | same length, each character lower-cased, and no upper-case letter is left |
| `Text.NormaliseEmailIdempotent` | internal/models/user.go:62 | trimming and lower-casing an already normalised e-mail changes nothing |
| `Text.Split` | internal/middleware/auth.go:29 | there is one more part than there are separators, and no part contains the separator |
| `Text.JoinSplit` | internal/middleware/auth.go:29 | joining the parts with the separator gives back the header that was split |
| `Text.SplitAtFirst` | internal/middleware/auth.go:29 | splitting a separator-free word, a separator and a rest gives that word followed by the parts of the rest |
| `Uuids.ToString` | pkg/utils/jwt.go:22 | the string form has 36 characters with dashes at positions 8, 13, 18 and 23 |
| `Uuids.Parse` | internal/middleware/auth.go:84 | any string whose length is not 32, 36, 38 or 45 is rejected. A 36-character string is accepted exactly when its dashes sit at 8, 13, 18 and 23 and every other character is a hexadecimal digit; the 45-character form needs a `urn:uuid:` prefix in any case, the 38-character form is that test on its middle 36 characters, and 32 characters must all be digits. Lengths are byte counts in Go, so the model refuses any string holding a non-ASCII character (`Ascii`), which no byte test of the Go code lets through either. An accepted string gives the identifier whose hexadecimal form is its digits in lower case. Every error is `InvalidUuid` |
| `Uuids.BracedNeedsAscii` | internal/middleware/auth.go:84 | the braced form accepts any two outer characters around a canonical string exactly when both are ASCII; a non-ASCII one would make the string longer than 38 bytes |
| `Uuids.DashedFormByPosition` | internal/middleware/auth.go:84 | the dashed form holds exactly when the four dash positions hold dashes and each of the other 32 positions holds a hexadecimal digit |
| `Uuids.DecodeHexDecides` | internal/middleware/auth.go:84 | an even-length string decodes exactly when every character is a hexadecimal digit, and the bytes re-encode to the string in lower case |
| `Uuids.ParseToString` | pkg/utils/jwt.go:22 | parsing the string form of an identifier gives that identifier back |
| `Uuids.ToStringInjective` | pkg/utils/jwt.go:22 | distinct identifiers have distinct `id` claims |
| `Uuids.DecodeEncodeHex` | pkg/utils/jwt.go:22 | decoding the hexadecimal form of bytes gives those bytes back |
| `Uuids.DashesRemoved` | pkg/utils/jwt.go:22 | removing the four dashes of the string form leaves the hexadecimal form of all 16 bytes |
| `Models.Sanitized` | internal/models/user.go:46-48 | the password is blank and every other field is as it was |
| `Models.PreparedForCreateFields` | internal/models/user.go:50-59 | `PreparedForCreate`, the record and error the preparation leaves, taken field by field: the e-mail is normalised. The password is trimmed, then replaced by the hash of the trimmed text when hashing succeeds. On a hashing error the trimmed plaintext stays and the error is returned. No other field changes |
| `Models.PreparedHoldsNoPlaintext` | internal/models/user.go:54 | if the hash primitive never returns its input, a successfully prepared record does not hold the trimmed plaintext |
| `Models.User.HashPassword` | internal/models/user.go:29-37 | on success the password becomes the hash of the old password; on error it is left untouched and the error is returned |
| `Models.User.ComparePasswords` | internal/models/user.go:39-44 | returns no error exactly when the primitive accepts the candidate against the stored hash, and changes nothing |
| `Models.User.SanitizePassword` | internal/models/user.go:46-48 | the new record is the old one with the password blank |
| `Models.User.PrepareCreate` | internal/models/user.go:50-59 | leaves exactly the record and error that `PreparedForCreate` describes; only e-mail and password may change |
| `Models.User.PrepareUpdate` | internal/models/user.go:61-65 | never fails, sets the e-mail to its trimmed, lower-cased form, and touches no other field |
| `Models.PrepareUpdateIdempotent` | internal/models/user.go:62 | preparing an already prepared record for update changes nothing |
| `SqlQueries.InsertRow` | internal/auth/repository/sql_queries.go:12-19 | the inserted row takes the four listed value columns from the record and the three timestamps from the clock; every other column, `user_id` among them, comes from the table's defaults |
| `SqlQueries.InsertIgnoresOtherFields` | internal/auth/repository/sql_queries.go:13-18 | the insert reads nothing of the record but first name, last name, e-mail and password, so a submitted `user_id` never reaches the table |
| `SqlQueries.CoalesceText` | internal/auth/repository/sql_queries.go:23-31 | a non-empty incoming value wins; an empty one keeps the stored value |
| `SqlQueries.CoalesceBytes` | internal/auth/repository/sql_queries.go:33-36 | a non-empty avatar wins; a nil or empty one keeps the stored avatar |
| `SqlQueries.CoalesceCountry` | internal/auth/repository/sql_queries.go:37-42 | a non-empty country wins; a nil or empty one keeps the stored country |
| `SqlQueries.UpdateRow` | internal/auth/repository/sql_queries.go:21-47 | each coalesced column keeps the stored value unless the incoming one is non-empty. `updated_at` takes the clock. No column outside the SET list changes, so `user_id`, `email`, `password`, `created_at` and `login_date` keep their stored values |
| `SqlQueries.UpdateIgnoresIdentity` | internal/auth/repository/sql_queries.go:21-46 | the incoming e-mail, password and id never reach the stored row, so the normalised e-mail is not written |
| `SqlQueries.UpdateIdempotent` | internal/auth/repository/sql_queries.go:22-42 | applying the same partial update twice gives the row that applying it once does, except for `updated_at` |
| `SqlQueries.EmptyUpdateOnlyStamps` | internal/auth/repository/sql_queries.go:22-43 | an update whose coalesced values are all empty changes only `updated_at` |
| `Store.SelectedById` | internal/auth/repository/sql_queries.go:44-57 | `Selected(table, f)` is the set of keys whose rows match the WHERE clause `f`. With every row under its own `user_id`, a WHERE clause on `user_id` selects that key alone when it is stored and nothing otherwise; update and the by-id lookup select their row through their statements' clauses this way, and delete removes the rows its clause matches |
| `SqlQueries.FilterKeys` | internal/auth/repository/sql_queries.go:44-64 | update, delete and the by-id lookup are keyed on `user_id`; the e-mail lookup is keyed on `email` |
| `SqlQueries.ProjectField` | internal/auth/repository/sql_queries.go:53-65 | `Project(r, cols)` is the record a row is scanned into: a selected column is read back as stored; an unselected one keeps the zero value of a fresh `models.User` |
| `SqlQueries.ProjectionsOfLookups` | internal/auth/repository/sql_queries.go:53-65 | the by-id lookup selects no `password` and reads back the row with a blank password; the by-e-mail lookup selects it and reads back the whole row |
| `SqlQueries.FieldsDetermineRow` | internal/models/user.go:11-22 | two rows that agree on every column are the same record |
| `Store.UserStore.Register` | internal/auth/repository/pr_repository.go:23-40 | stores the inserted row under the generated id and returns it. A clash on id or e-mail is an error and leaves the table unchanged. Keys and e-mails stay unique |
| `Store.UserStore.Update` | internal/auth/repository/pr_repository.go:42-59 | replaces the row keyed on the record's id by its update and returns it. A missing id gives a wrapped `sql.ErrNoRows` and no change |
| `Store.UserStore.Delete` | internal/auth/repository/pr_repository.go:61-83 | removes exactly the rows keyed on the id: the table becomes `Without(table, DeleteFilter(id))`, the rows the WHERE clause does not match, which is the table less the id. Zero rows affected is an error, and then the table is unchanged |
| `Store.UserStore.GetById` | internal/auth/repository/pr_repository.go:85-100 | returns the row keyed on the id without its password (`Project` on the lookup's columns), or a nil user with an error that has no cause |
| `Store.UserStore.FindByEmail` | internal/auth/repository/pr_repository.go:102-118 | returns the row, password included (`Project` on the lookup's columns), whose e-mail equals the given one exactly (the only such row), or a nil user with an error that has no cause; never both nil |
| `Jwt.NewClaims` | pkg/utils/jwt.go:20-26 | `id` is the string form of the user's UUID, `email` is the user's e-mail as given, and `exp` is issue time plus 3600 seconds |
| `Jwt.ClaimSet` | pkg/utils/jwt.go:13-17 | the encoded claims are `email`, `id` and, unless zero, `exp`; there is no password claim |
| `Jwt.GenerateJWTToken` | pkg/utils/jwt.go:19-36 | the token is the HS256 signature of the user's claims under the configured secret; on a signing failure the token is "" and the error comes back as it is |
| `Jwt.IdClaimRoundTrip` | pkg/utils/jwt.go:22 | the issued `id` claim is a string that parses back to the user's identifier |
| `UseCase.LoginMismatchIsUnauthorized` | internal/auth/usecase/usercase.go:65-67 | the password-mismatch error wraps `ErrUnauthorized` |
| `UseCase.AuthUC.Register` | internal/auth/usecase/usercase.go:26-54 | an e-mail already stored exactly as submitted fails with `ErrEmailAlreadyExists` before anything is prepared or persisted. A preparation error aborts with the table unchanged. A clash of the normalised e-mail is still rejected by the table. On success the new row, the insert of the record `PreparedForCreate` describes, is stored, and the passwordless copy and a token issued for that copy are returned |
| `UseCase.AuthUC.Login` | internal/auth/usecase/usercase.go:57-80 | looks up the e-mail as submitted, without normalising it. A lookup error comes back unchanged. A mismatch gives the error wrapping `ErrUnauthorized` and no token. On success the passwordless record and a token for it are returned. The table is never written |
| `UseCase.AuthUC.Update` | internal/auth/usecase/usercase.go:82-97 | normalises the caller's e-mail, applies the store update keyed on the submitted id, returns store errors unchanged and returns the updated row with its password blanked |
| `UseCase.AuthUC.Delete` | internal/auth/usecase/usercase.go:99-105 | returns exactly the store's error; a missing id is an error and the table keeps every other row |
| `UseCase.AuthUC.GetByID` | internal/auth/usecase/usercase.go:107-116 | returns the stored row with its password blanked, or the store's error and no user |
| `UseCase.DeleteThenGetByID` | internal/auth/usecase/usercase.go:99-116 | after a delete of an id, a lookup of that id fails, and the delete succeeded exactly when the id was stored |
| `Middleware.CheckHeader` | internal/middleware/auth.go:24-36 | an empty header is missing. A token is taken exactly when the header holds one space. Any other header is refused |
| `Middleware.SchemeIgnored` | internal/middleware/auth.go:36 | whatever the first word, a header of two space-free words yields the second word as the token |
| `Middleware.AcceptedHeaderShape` | internal/middleware/auth.go:29-36 | an accepted header is a space-free word, one space and the token |
| `Middleware.DoubleSpaceRefused` | internal/middleware/auth.go:29-34 | `"Bearer  abc"` splits into three parts and is refused |
| `Middleware.KeyFunc` | internal/middleware/auth.go:61-69 | only an HMAC-signed token gets the configured secret as its key; any other method is refused with the method named |
| `Middleware.ParseToken` | internal/middleware/auth.go:61-72 | a token is accepted exactly when it decodes, names an HMAC method, passes the signature check under the configured secret and passes the time-claim check; an accepted token is marked valid and carries the decoded method and claims |
| `Middleware.VerifyToken` | internal/middleware/auth.go:57-87 | an empty token string is refused with `InvalidJWTToken`. A token names an identifier only when it is non-empty, decodes, is HMAC-signed, passes the signature check under the secret and the time-claim check, and carries a string `id` claim that parses to that identifier |
| `Middleware.NonHmacRefusedBeforeSecret` | internal/middleware/auth.go:63-66 | a token not signed with HMAC is refused. The result is the same for every secret and every signature check, and the error carries the key function's message |
| `Middleware.ClaimShapeChecks` | internal/middleware/auth.go:78-87 | a missing or non-string `id` gives `InvalidJWTClaims`; a string `id` gives exactly the result of parsing it as a UUID |
| `Middleware.IssuedTokenNamesUser` | internal/middleware/auth.go:78-84 | a token carrying the claims issued for a user names that user once it decodes and its signature and time claims check out |
| `Middleware.EmptyTokenRefused` | internal/middleware/auth.go:57-59 | `"Bearer "` passes the split and its empty token is refused |
| `Middleware.ValidateJWTToken` | internal/middleware/auth.go:54-101 | any token or lookup failure returns that error and leaves the context untouched. On success the stored user, password blanked, is set under `"user"` and in the request context |
| `Middleware.AuthJWTMiddleware` | internal/middleware/auth.go:21-52 | `ClaimedIdentity(header)` is the identifier the header names: the header split gives a token and `VerifyToken` accepts it. The next handler runs exactly once, with the user bound, when the header names a stored user. Every other request gets the same 401 body, and neither the context nor the handler is touched |
| `Handlers.GetMeAsWritten` | internal/auth/delivery/http/handlers.go:142-153 | answers 200 with the value under `"User"` if there is one, else 401 |
| `Handlers.GetMe` | internal/auth/delivery/http/handlers.go:142-153 | answers 200 with the value under `"user"` if there is one, else 401 |
| `Handlers.MeRouteAsWritten` | internal/auth/delivery/http/routes.go:20-21 | as written, `GET /auth/me` answers 401 to every request |
| `Handlers.MeRoute` | internal/auth/delivery/http/routes.go:20-21 | with the key corrected, `GET /auth/me` answers 200 with the gate's passwordless user exactly when the header names a stored user, and 401 otherwise |

## Findings

| source | as written | input that shows it | evidently intended | confidence | as-written member | corrected member |
|---|---|---|---|---|---|---|
| internal/auth/delivery/http/handlers.go:144 | `GetMe` reads the context key `"User"`, but the gate stores the user under `"user"` (internal/middleware/auth.go:94) | `GET /auth/me` with a valid token for a stored user: the gate admits it, and `GetMe` answers 401 | `GetMe` reads `"user"` and answers 200 with that user | high; not executed | `Handlers.MeRouteAsWritten` | `Handlers.MeRoute` |

## Left out

- bcrypt and HMAC, and golang-jwt's decoding, signature check and `exp` check, are abstract function values. The model claims no constant-time comparison or signature property.
- bcrypt draws a random salt, but the model treats hashing as a function of the plaintext.
- `Middleware.ParseToken`: the library's error values are approximated by `TokenMalformed`, `TokenSignatureInvalid`, `TokenInvalidClaims` and one wrapper around the key function's error. Their texts are not the library's.
- `Uuids.Parse`: every library error is collapsed into `InvalidUuid`.
- `Middleware.VerifyToken`: the failed `jwt.MapClaims` type assertion (line 78) is not modelled, because `jwt.Parse` always yields `MapClaims`. The `!token.Valid` check is kept, but with v5's `Parse` it never fires.
- `Text.TrimSpace`, `Text.ToLower`: ASCII only. Unicode white space and non-ASCII case mapping are not modelled.
- The SQL text and squirrel's rendering are not modelled. As written, `Where("user_id", id)` and `Where("email", email)` have no `= ?`, and `Select("users")` names `users` as a column with no FROM clause (sql_queries.go:45,50,54,61). The model follows the evident intent: keyed on `user_id` or `email`, reading from `users`.
- `Store.UserStore.Register`, `Store.UserStore.Update`: the insert and update statements have no RETURNING clause, so as written the row scan would find no row. The model returns the stored row, as the callers expect.
- Database failures other than constraint violations and missing rows are not modelled: connections, timeouts, context cancellation, and `RowsAffected` errors.
- `UseCase.AuthUC.Update`: the error branch after `PrepareUpdate` is not modelled, because `PrepareUpdate` always returns nil.
- `UseCase.AuthUC.Login`: a `(nil, nil)` result from `FindByEmail` is not modelled. The store never produces it, and in the source it would dereference a nil user.
- Clocks are whole Unix seconds. One `now` serves every `time.Now()` of a call. A zero `time.Time` is written 0. The int64 range of `exp` is not modelled.
- HTTP delivery, request binding and validation tags, status mapping, response envelopes, server start-up, configuration loading, the logging and other middlewares, and `MiddlewareManager`'s fields are not part of this model.
- `httpErrors.InvalidJWTToken`, `httpErrors.InvalidJWTClaims`, `httpErrors.NewUnauthorizedError` and `utils.UserCtxKey` are modelled as two distinct error values, one opaque 401 body and one context field.
