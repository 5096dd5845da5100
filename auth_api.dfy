/**
 * src/app/api/auth.ts: the pages-router handler that verifies the token from
 * the parsed cookie map and answers 401 or 200.
 */
module AuthApi {
  import opened Values
  import opened Http
  import AuthLib
  import VerifyTokenRoute

  const NotFoundBody := JObj(map["error" := JStr("Token not found")])
  const InvalidBody := JObj(map["error" := JStr("Invalid or expired token")])

  /** `handler(req, res)` at time `now`; `cookies` is `req.cookies`. It answers
      200 or 401, and 200 only for a present `auth_token` that `verifyToken` accepts. */
  function Handler(cookies: map<string, string>, env: AuthLib.Env, now: nat): (r: Response)
    ensures r.status == 200 || r.status == 401
    ensures r.status == 200 ==>
      AuthLib.CookieName in cookies && AuthLib.VerifyToken(cookies[AuthLib.CookieName], env, now).Some?
  {
    var token := Get(cookies, AuthLib.CookieName);
    if !NonEmpty(token) then
      ApiJsonResponse(NotFoundBody, 401)
    else
      match AuthLib.VerifyToken(token.value, env, now)
      case None => ApiJsonResponse(InvalidBody, 401)
      case Some(decoded) =>
        ApiJsonResponse(JObj(map["message" := JStr("Token is valid"), "data" := VerifyTokenRoute.ClaimsJson(decoded)]), 200)
  }

  /** Missing or empty `auth_token`: 401 "Token not found". */
  lemma NoTokenRejected(cookies: map<string, string>, env: AuthLib.Env, now: nat)
    requires AuthLib.CookieName !in cookies || cookies[AuthLib.CookieName] == ""
    ensures Handler(cookies, env, now).status == 401
    ensures Handler(cookies, env, now).body == JsonBody(NotFoundBody)
  {
  }

  /** The handler answers 200 exactly for a token `verifyToken` accepts, and then
      returns its claims; a missing or empty cookie is 401 "Token not found", and a
      present one that does not verify is 401 "Invalid or expired token". */
  lemma AcceptsExactlyVerified(cookies: map<string, string>, env: AuthLib.Env, now: nat)
    ensures Handler(cookies, env, now).status == 200
        <==> AuthLib.CookieName in cookies && AuthLib.VerifyToken(cookies[AuthLib.CookieName], env, now).Some?
    ensures Handler(cookies, env, now).status == 200 ==>
      Handler(cookies, env, now).body
      == JsonBody(JObj(map["message" := JStr("Token is valid"),
                           "data" := VerifyTokenRoute.ClaimsJson(AuthLib.VerifyToken(cookies[AuthLib.CookieName], env, now).value)]))
    ensures AuthLib.CookieName !in cookies || cookies[AuthLib.CookieName] == "" ==>
      Handler(cookies, env, now) == ApiJsonResponse(NotFoundBody, 401)
    ensures AuthLib.CookieName in cookies && cookies[AuthLib.CookieName] != ""
            && AuthLib.VerifyToken(cookies[AuthLib.CookieName], env, now).None? ==>
      Handler(cookies, env, now) == ApiJsonResponse(InvalidBody, 401)
  {
  }

  /** For the same token the two verification endpoints give the same status and
      body: here from the cookie map, there from the raw `Cookie` header. */
  lemma SameOutcomeAsVerifyRoute(cookies: map<string, string>, header: Option<string>, env: AuthLib.Env, now: nat)
    requires Get(cookies, AuthLib.CookieName) == VerifyTokenRoute.ExtractToken(header)
    ensures Handler(cookies, env, now).status == VerifyTokenRoute.Handle(header, env, now).status
    ensures Handler(cookies, env, now).body == VerifyTokenRoute.Handle(header, env, now).body
  {
  }
}
