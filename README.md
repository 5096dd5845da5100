# Session authentication of next-crud-ai, modelled in Dafny

This project models the authentication core of the next-crud-ai Next.js
application and proves properties of it:

- **Tokens** (`Jwt`, `AuthLib`): the signing secret with its fallback, `createToken` and
  `verifyToken`. A token is issued for the payload `{ userId }` with a one-day
  lifetime.
- **Cookies** (`Http`, `AuthLib`): the `auth_token` cookie responses `setAuthCookie`
  and `clearAuthCookie`, and how a user agent stores the cookie (section 5.3 of
  RFC 6265).
- **Middleware** (`Middleware`): the gate in front of `/dashboard` and `/home`. It only
  checks that the cookie is present.
- **Verification endpoints** (`VerifyTokenRoute`, `AuthApi`): one reads the raw `Cookie`
  header with `split`/`find`/`split`. The other reads the parsed cookie map.
- **Auth route handlers** (`AuthRoute`, `LoginRoute`, `TestAuthRoute`): the combined
  login/register route, the login-only route and the test route. They issue the cookie.
- **Data routes** (`UsersRoute`, `Entradas`): the `perfil` listing and the `entradas`
  table handler (GET/POST/PUT/DELETE/405).

The hosted identity service and the database are replaced as follows:

- **Replies as parameters**: the replies of `signInWithPassword` and `signUp`, the
  result of the `perfil` select, and whether each store write fails.
- **In-memory state**: the state those calls change. `AuthRoute.Backend` holds the
  accounts and the `perfil` table. `Entradas.Table` holds the `entradas` table.

Environment and clock:

- The process environment (`JWT_SECRET`, `NODE_ENV`) is a parameter `Env`.
- The clock is a parameter `now`, in seconds.

The `jsonwebtoken` library is not part of this model, so module `Jwt` states its
contract through a concrete stand-in codec:

- **Layout**: the signed form is a length-prefixed body followed by a tag that
  depends on the secret. The body holds the `userId`, `iat` and `exp`. The token
  spells the signed form as decimal code points, each ended by `.`. So, like the
  base64url segments of a real token, it never holds `=`, `;` or a space.
- **Canonical decoding**: numbers have no leading zeros and there is no `-0`. So
  `Verify` accepts exactly the encodings, under the current secret, of any claims
  with `now < exp`.
- **What is proved**: the round trip, the one-day expiry and the refusal of another
  secret's tokens. The stand-in does not model HMAC's resistance to forgery.

State-changing code is modelled as classes:

- The register branch of `src/app/api/auth/route.ts` makes two writes in a row.
- The POST/PUT/DELETE branches of `src/app/api/entradas.ts` change the table.
- Each is a method whose postcondition gives the whole new state. Each class keeps
  an invariant: every `perfil` row refers to an account; every `entradas` row has a
  distinct generated id below the next one.

## Model

| member | source | states |
|---|---|---|
| Values.FalsyValues | src/app/api/test-auth/route.ts:9 | `!userId` holds exactly for null, false, 0 and the empty string (and `undefined`, through `Present`) |
| Values.NonEmptyIsPresent | src/middleware.ts:19 | `!token` on a string read from an object holds exactly when it is `undefined` or empty |
| Text.IndexOfFrom | src/app/api/verify-token/route.ts:7 | the first occurrence of the separator at or after a position, or none at all |
| Text.Split | src/app/api/verify-token/route.ts:6-9 | `String.split` with a string separator yields at least one piece and no piece contains the separator |
| Text.JoinSplit | src/app/api/verify-token/route.ts:6-7 | joining the pieces of a split with the same separator gives back the original string |
| Text.SplitJoin | src/app/api/verify-token/route.ts:6-7 | splitting a join of pieces that lack the separator's first character gives back exactly those pieces |
| Text.TakeUntilFirst | src/app/api/verify-token/route.ts:9 | the text before the first `=` of `a + "=" + b` is `a` when `a` holds no `=` |
| Text.SplitOneCharHead | src/app/api/verify-token/route.ts:9 | the first piece of a split on one character is the text up to its first occurrence |
| Text.SplitAfterPiece | src/app/api/verify-token/route.ts:6-9 | a leading piece free of the separator's first character is split off as the first piece |
| Jwt.NatToStringCorrect | src/lib/auth.ts:9 | the decimal spelling of a number used for `iat`/`exp` reads back as that number |
| Jwt.CanonicalIsSpelling | src/lib/auth.ts:15 | every canonical digit string is the spelling of its value, so decoding accepts no other spelling |
| Jwt.ParseNatCanonical | src/lib/auth.ts:15 | a number field decodes to `n` only when it is exactly `n`'s spelling |
| Jwt.ParseNatRoundTrip | src/lib/auth.ts:8-19 | decoding the spelling of `n` gives `n` |
| Jwt.ParseIntRoundTrip | src/lib/auth.ts:8-19 | decoding the spelling of an integer `userId` gives it back, negatives included |
| Jwt.ParseNetRoundTrip | src/lib/auth.ts:8-19 | a length-prefixed field decodes to its text and leaves the rest untouched |
| Jwt.ParseNetCanonical | src/lib/auth.ts:15 | a field decodes only from its own encoding: it is the unique parse |
| Jwt.Armor | src/lib/auth.ts:9 | the token alphabet is digits and `.` only, so a token never holds `=`, `;` or a space |
| Jwt.ArmorRoundTrip | src/lib/auth.ts:8-19 | reading back the spelling of any text gives that text |
| Jwt.ArmorCanonical | src/lib/auth.ts:15 | a spelling reads back only from its own characters |
| Jwt.DecodeScalarRoundTrip | src/lib/auth.ts:8-19 | every scalar `userId` (null, boolean, number, string) decodes back from its encoding |
| Jwt.DecodeScalarCanonical | src/lib/auth.ts:15 | a scalar decodes only from its own encoding |
| Jwt.DecodeClaimsRoundTrip | src/lib/auth.ts:8-19 | the claims `{ userId, iat, exp }` decode back from their encoding |
| Jwt.DecodeClaimsCanonical | src/lib/auth.ts:15 | a body decodes to claims only when it is exactly their encoding |
| Jwt.MacSeparatesSecrets | src/lib/auth.ts:8-19 | the tag of a body differs under two different secrets |
| Jwt.Verify | src/lib/auth.ts:13-19 | whatever `verify` accepts is the encoding, under this non-empty secret, of the claims it returns, and they are unexpired |
| Jwt.EncodeVerifies | src/lib/auth.ts:13-19 | the encoding of claims `c` verifies under its own secret to `c` while `now < c.exp`, and to nothing afterwards |
| Jwt.VerifyExactly | src/lib/auth.ts:13-19 | verification yields claims `c` exactly when the token is `c`'s encoding under this non-empty secret and `now < c.exp` |
| Jwt.EncodeInjective | src/lib/auth.ts:9 | distinct claims give distinct tokens under one secret |
| Jwt.Sign | src/lib/auth.ts:8-10 | `sign` with `expiresIn: '1d'` gives a cookie-safe token that verifies at issue time to the payload, `iat` and `iat + 1 day` |
| Jwt.SignVerify | src/lib/auth.ts:8-19 | a token issued at `iat` verifies to its payload, `iat` and `iat + 1 day` while `now < iat + 1 day`, and to nothing afterwards |
| Jwt.WrongSecretRejected | src/lib/auth.ts:13-19 | a token issued under one secret never verifies under another |
| Http.RemoveAll | src/lib/auth.ts:31 | removing a header name leaves no value under it and keeps every other name's values, in their order |
| Http.SetHeader | src/lib/auth.ts:31-45 | `headers.set` leaves exactly one value under the name and every other name's values unchanged |
| Http.JsonSetsNoCookie | src/app/api/auth/login/route.ts:10-21 | a plain JSON answer, app-router or pages-router, asks the user agent to store no cookie |
| Http.SameNameSupersedes | src/lib/auth.ts:22-47 | a cookie received later under the same name replaces the earlier one: only the last one tells |
| Http.ReceiveOne | src/lib/auth.ts:31-45 | a response with one `Set-Cookie` changes the jar as that one cookie does |
| AuthLib.JwtSecret | src/lib/auth.ts:5 | the secret is `JWT_SECRET` when it is set and non-empty, else the fallback; it is never empty |
| AuthLib.CreateToken | src/lib/auth.ts:8-10 | `createToken` gives a cookie-safe token that `verifyToken` decodes at once to the payload, issued now, expiring in a day |
| AuthLib.VerifyToken | src/lib/auth.ts:13-19 | `verifyToken` returns claims only for an unexpired encoding under the current secret, and null for the empty token |
| AuthLib.SetAuthCookie | src/lib/auth.ts:22-33 | 200 `{ success: true }` with exactly one `Set-Cookie`: `auth_token` = token, HttpOnly, path `/`, SameSite Lax, Max-Age 86400, Secure iff production |
| AuthLib.ClearAuthCookie | src/lib/auth.ts:36-47 | 200 `{ success: true }` with exactly one `Set-Cookie`: `auth_token` empty, Max-Age 0, the same other attributes |
| AuthLib.ClearMirrorsSet | src/lib/auth.ts:22-47 | the clearing cookie is the session cookie with an empty value and Max-Age 0, and the status and body are the same |
| AuthLib.OtherHeadersKept | src/lib/auth.ts:30-45 | apart from the cookie both responses carry only the JSON content type |
| AuthLib.TokenRoundTrip | src/lib/auth.ts:5-19 | under one environment `verifyToken(createToken(p))` is the claims of `p` until one day has passed, then null |
| AuthLib.ForeignSecretRejected | src/lib/auth.ts:5-19 | a token issued under another effective secret verifies to null |
| AuthLib.VerifyTokenExactly | src/lib/auth.ts:13-19 | `verifyToken` accepts exactly the encodings, under the current secret, of any claims with `now < exp`; it does not check `exp - iat` |
| AuthLib.LoginThenLogout | src/lib/auth.ts:22-47 | after the session cookie the jar holds the token; after the clearing cookie it is the original jar without `auth_token` |
| Middleware.Gate | src/middleware.ts:11-27 | a request is turned away exactly when `auth_token` is missing or empty, to the same URL at `/login`, which the gate does not cover; a request let through holds the cookie |
| Middleware.Route | src/middleware.ts:7-27 | the middleware runs exactly on the matched paths, and a redirect leads from a matched path to an unmatched one, so following it ends there |
| Middleware.RedirectKeepsUrl | src/middleware.ts:20-22 | the redirect keeps protocol, host, query and fragment and only replaces the path |
| Middleware.PresenceOnly | src/middleware.ts:13-26 | a non-empty but invalid or expired token still passes the gate |
| Middleware.OnlyAuthCookieRead | src/middleware.ts:13 | requests that agree on `auth_token` get the same decision whatever their other cookies |
| Middleware.LoginNotGated | src/middleware.ts:7-21 | `/login` is not matched, so the redirect cannot loop |
| Middleware.MatcherEdges | src/middleware.ts:8 | `/dashboards` and `/homepage` are not gated; `/dashboard`, `/dashboard/settings` and `/home/` are |
| Middleware.SessionLifecycle | src/middleware.ts:11-27 | a browser that received the session cookie passes; after the clearing cookie it is redirected to `/login` |
| VerifyTokenRoute.ExtractToken | src/app/api/verify-token/route.ts:5-9 | without a `Cookie` header there is no token, and a token found never holds `=` |
| VerifyTokenRoute.Handle | src/app/api/verify-token/route.ts:4-22 | 200 exactly when a token is found and `verifyToken` accepts it; otherwise 401 "Token not found" or 401 "Invalid or expired token" |
| VerifyTokenRoute.FindIndex | src/app/api/verify-token/route.ts:8 | `find` picks the first row starting with the prefix, or none when no row does |
| VerifyTokenRoute.RowStartsWithPrefix | src/app/api/verify-token/route.ts:8 | a cookie row starts with `auth_token=` exactly when its cookie is named `auth_token` |
| VerifyTokenRoute.FindRow | src/app/api/verify-token/route.ts:6-8 | on a well-formed header the row found is the first `auth_token` pair's row |
| VerifyTokenRoute.TokenOfRow | src/app/api/verify-token/route.ts:9 | `split('=')[1]` of `auth_token=v` is `v` up to its first `=` |
| VerifyTokenRoute.ExtractFromHeader | src/app/api/verify-token/route.ts:5-9 | on an RFC 6265 header the token is the first `auth_token` value, cut at its first `=`, or none |
| VerifyTokenRoute.SingleRowHeader | src/app/api/verify-token/route.ts:6-9 | a header without `"; "` that does not begin with `auth_token=` yields no token |
| VerifyTokenRoute.MissingHeader | src/app/api/verify-token/route.ts:5-12 | no `Cookie` header gives 401 "Token not found" |
| VerifyTokenRoute.HeaderOutcomes | src/app/api/verify-token/route.ts:4-22 | on an RFC 6265 header: no `auth_token` pair or an empty token gives 401 "Token not found"; otherwise the token is verified, giving 401 "Invalid or expired token" or 200 with its claims |
| VerifyTokenRoute.EmptyValueNotFound | src/app/api/verify-token/route.ts:9-13 | a header present with an empty `auth_token=` value gives 401 "Token not found" |
| VerifyTokenRoute.IssuedTokenFitsCookie | src/app/api/verify-token/route.ts:7-9 | an issued token holds no `=`, `;` or space, so the split rules keep it whole |
| VerifyTokenRoute.IssuedTokenAccepted | src/app/api/verify-token/route.ts:4-22 | a freshly issued token sent back in the header gives 200 with its claims for a day and 401 "Invalid or expired token" afterwards |
| VerifyTokenRoute.SoleCookieAccepted | src/app/api/verify-token/route.ts:4-22 | the header `auth_token=<issued token>` gives 200 with its claims for a day and 401 afterwards, under any secret |
| AuthApi.Handler | src/app/api/auth.ts:4-16 | the answer is 200 or 401, and 200 only for a present `auth_token` that `verifyToken` accepts |
| AuthApi.NoTokenRejected | src/app/api/auth.ts:5-8 | a missing or empty `auth_token` gives 401 "Token not found" |
| AuthApi.AcceptsExactlyVerified | src/app/api/auth.ts:4-16 | 200 exactly when the cookie is present and verifies, with the decoded claims; a missing or empty cookie gives 401 "Token not found"; one that does not verify gives 401 "Invalid or expired token" |
| AuthApi.SameOutcomeAsVerifyRoute | src/app/api/auth.ts:4-16 | for the same token this handler and the verify-token route give the same status and body |
| LoginRoute.Post | src/app/api/auth/login/route.ts:5-28 | 200 exactly for a user and no error, and only the 200 answer sets a cookie |
| LoginRoute.ErrorWins | src/app/api/auth/login/route.ts:10-15 | a sign-in error gives 400 `{ success: false, message }` and no cookie, even when a user came with it |
| LoginRoute.OnlySuccessSetsCookie | src/app/api/auth/login/route.ts:10-27 | 400 iff error (with its message), 404 iff no error and no user (with `'Usuário não encontrado'`), 200 iff a user; only the 200 answer sets a cookie |
| LoginRoute.SuccessIssuesUserToken | src/app/api/auth/login/route.ts:24-27 | the cookie's token verifies to `{ userId: user.id }` issued now, for a day |
| AuthRoute.Login | src/app/api/auth/route.ts:11-23 | the login branch answers 200 or 400, 200 exactly for a user without an error, and only 200 sets a cookie |
| AuthRoute.RegisterResponse | src/app/api/auth/route.ts:26-58 | the register branch answers 200 only when sign-up and insert both succeed, and only 200 sets a cookie |
| AuthRoute.ProfileIgnoresOtherMembers | src/app/api/auth/route.ts:40-47 | the new `perfil` row is the account's id with `nome`, `telefone` and `email` from the body: bodies agreeing on those three give the same row |
| AuthRoute.NoProfileWithoutAccount | src/app/api/auth/route.ts:28-47 | under the invariant, an id without an account has no `perfil` row |
| AuthRoute.SignUpKeepsReferences | src/app/api/auth/route.ts:28-47 | adding the account keeps every `perfil` row referenced, and the new row too |
| AuthRoute.Backend.constructor | src/app/api/auth/route.ts:6 | an empty backend satisfies the invariant |
| AuthRoute.Backend.Post | src/app/api/auth/route.ts:6-65 | login answers from the sign-in reply without writing; register appends the account, then the `perfil` row, stopping at the first failure; any other type gives 400 with nothing written; the invariant holds |
| AuthRoute.Backend.RegisterOrphan | src/app/api/auth/route.ts:28-53 | a `perfil` failure after sign-up answers 500 with no cookie and leaves the new account without a profile |
| AuthRoute.NoCookieOnFailure | src/app/api/auth/route.ts:14-64 | the failure answers carry no `Set-Cookie` |
| AuthRoute.LoginOutcomes | src/app/api/auth/route.ts:11-23 | an error or missing user gives 400 with the message or `'Login falhou'` and no cookie; otherwise `setAuthCookie` of the user's token |
| AuthRoute.RegisterOutcomes | src/app/api/auth/route.ts:26-58 | 400 iff sign-up failed (message or `'Cadastro falhou'`), 500 iff the insert failed (its message), 200 otherwise; only 200 sets a cookie |
| AuthRoute.RegisterIssuesUserToken | src/app/api/auth/route.ts:56-57 | the registration cookie's token verifies to `{ userId: new id }` for a day |
| AuthRoute.LoginHandlersCompared | src/app/api/auth/route.ts:11-23 | both login handlers agree on success; a missing user is 400 here and 404 in the login-only route; an empty error message falls back only here |
| TestAuthRoute.Post | src/app/api/test-auth/route.ts:6-21 | 200 exactly for a truthy `userId`, otherwise 400 without a cookie |
| TestAuthRoute.Outcomes | src/app/api/test-auth/route.ts:9-20 | a missing or falsy `userId` gives 400 `'userId é obrigatório'` with no cookie; any truthy one gives 200 `{ success: true }` with the cookie |
| TestAuthRoute.TokenCarriesUserId | src/app/api/test-auth/route.ts:17-20 | the `auth_token` cookie's token verifies to exactly `{ userId }` issued now, for a day |
| TestAuthRoute.DistinctUsersDistinctTokens | src/app/api/test-auth/route.ts:17 | different `userId`s receive different tokens |
| UsersRoute.Project | src/app/api/users/route.ts:14-19 | the list has one user per row, in the rows' order, each the view of its row |
| UsersRoute.ProjectAppend | src/app/api/users/route.ts:14-19 | the projection distributes over concatenation of row lists |
| UsersRoute.ViewFields | src/app/api/users/route.ts:14-19 | a user has exactly `id` = `user_ref`, `nome`, `email`, `avatar_url`, and no `telefone` |
| UsersRoute.Get | src/app/api/users/route.ts:4-22 | 200 exactly when the query returned rows, 500 when it failed |
| UsersRoute.Outcomes | src/app/api/users/route.ts:10-21 | a query error gives 500 `{ error }`; otherwise 200 `{ users }` with one entry per row, in order |
| Entradas.UpdateWhere | src/app/api/entradas.ts:24-27 | rows whose id equals the key take the new values; every other row and column stays |
| Entradas.DeleteWhere | src/app/api/entradas.ts:33 | a row remains exactly when it was there and its id differs from the key |
| Entradas.Table.constructor | src/app/api/entradas.ts:4 | an empty table satisfies the invariant |
| Entradas.Table.Handle | src/app/api/entradas.ts:4-41 | each verb's status, body and new table; any store error gives 500 `{ error }` with the table unchanged; other verbs give 405 with the table unchanged; the id invariant holds |
| Entradas.InsertKeepsKeys | src/app/api/entradas.ts:16-18 | inserting under the next id keeps the ids present, bounded and distinct |
| Entradas.UpdateKeepsKeys | src/app/api/entradas.ts:23-27 | an update never rewrites an id, since `id` is taken out of the fields |
| Entradas.DeleteKeepsKeys | src/app/api/entradas.ts:33 | a delete keeps the ids present, bounded and distinct |
| Entradas.DeleteAppend | src/app/api/entradas.ts:33 | deleting distributes over concatenation, so the remaining rows keep their order |
| Entradas.DeleteNoMatch | src/app/api/entradas.ts:33 | a key that matches no row leaves the table as it was |
| Entradas.DeleteOnlyMatch | src/app/api/entradas.ts:33 | a key that only one row matches removes that row and keeps the rest in order |
| Entradas.DeleteOne | src/app/api/entradas.ts:32-33 | with distinct ids, deleting by a row's id removes that row and no other |
| Entradas.DeleteReadsDeleteId | src/app/api/entradas.ts:32-33 | DELETE reads `deleteId`: a body without it deletes nothing, whatever its `id` |
| Entradas.InsertIgnoresOtherMembers | src/app/api/entradas.ts:15-18 | body members outside the six columns, a client-chosen `id` among them, do not affect the inserted row |

## Left out

- Token format: the model uses a length-prefixed stand-in codec, spelled in digits
  and dots, instead of base64url JSON signed with HMAC-SHA256. It does not model the
  infeasibility of forging a tag without the secret; it only models that tags differ
  between secrets.
- Jwt.VerifyExactly: the stand-in accepts only bodies of exactly `{ userId, iat, exp }`.
  `verify` accepts any validly signed token, with extra claims or HS384/HS512
  signatures among them. Such tokens are not modelled. Nor is the public fallback
  secret of `src/lib/auth.ts:5`, which lets anyone sign a token.
- Jwt.Verify: a token without `exp` never verifies here. `jsonwebtoken` accepts such
  tokens, but `createToken` always sets `exp`.
- Jwt.Sign: it requires a non-empty secret, where the library throws on one. That
  case never arises, because `AuthLib.JwtSecret` is never empty.
- Token payload `userId`: it is a JSON scalar. An array or object `userId` in
  `src/app/api/test-auth/route.ts` is not modelled.
- Numbers: JSON numbers are integers; floating point is left out.
- Clock skew, `notBefore`, `algorithms` and the other `jsonwebtoken` options are not
  used by the source and are left out.
- Secret read time: `JWT_SECRET` is read once when the module loads. The environment
  is modelled as a parameter constant over a run.
- Cookie serialisation: `serialize` percent-encodes the value. The model keeps the
  cookie as a record, and a user agent stores it as one name-value pair.
- Request headers: several `Cookie` headers and the user agent's attribute rules
  (Domain, Path scoping, Secure only over HTTPS) are left out.
- Console output: `console.log` in the middleware is I/O and is left out.
- Malformed JSON request bodies: `request.json()` would throw on them. These and
  other unhandled exceptions, which become a 500 from the framework, are left out.
- Identity service: Supabase's `signInWithPassword` and `signUp` are replies given
  as inputs. A successful `signUp` is modelled as the account being created.
- Database filters and ordering: `order('nome')` and `select('*')` ordering are the
  database's. The model lists rows in the order the reply or table holds them.
- `.eq('id', key)` comparison: it is JSON equality, so the string `"5"` does not
  match the number `5` as PostgreSQL's coercion would. An absent key matches
  nothing; the store's own error for it is a fault input.
- Store faults: each is an input. A failed write is modelled as changing nothing.
- Unmodelled columns: the `entradas` table's other columns and their defaults are
  not modelled, and neither are `avatar_url`'s default for new `perfil` rows
  (stored as null) and column types.
- `data` after POST/PUT: the echoed `data` is modelled as null, which the client
  returns without `.select()`.
- Entradas.Table.Handle: the response is a value. The status/json/end/setHeader
  mutations of the pages-router response object are not modelled.
- Entradas.NotAllowed: a non-string `req.method` is not modelled; a missing one reads
  `undefined`.
- Next.js internals: how `NextResponse` serialises responses is not modelled. The
  app-router JSON content type is `application/json`, and the pages-router one is
  `application/json; charset=utf-8`.
