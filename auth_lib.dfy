/**
 * src/lib/auth.ts: the signing secret, token issue and verification, and the
 * two responses that set and clear the `auth_token` session cookie.
 * The process environment and the clock are parameters.
 */
module AuthLib {
  import opened Values
  import opened Http
  import Jwt

  /** The two environment variables the module reads. */
  datatype Env = Env(jwtSecret: Option<string>, nodeEnv: Option<string>)

  const FallbackSecret := "seu_segredo_super_secreto"

  const CookieName := "auth_token"

  /** `process.env.JWT_SECRET || 'seu_segredo_super_secreto'`: an unset or empty
      variable selects the fallback, so the secret in use is never empty. */
  function JwtSecret(env: Env): (secret: string)
    ensures secret != ""
    ensures NonEmpty(env.jwtSecret) ==> secret == env.jwtSecret.value
    ensures !NonEmpty(env.jwtSecret) ==> secret == FallbackSecret
  {
    if NonEmpty(env.jwtSecret) then env.jwtSecret.value else FallbackSecret
  }

  /** `createToken(payload)`, issued at `now` (seconds): a cookie-safe token that
      `verifyToken` decodes at once to the payload, issued now, expiring in a day. */
  function CreateToken(payload: Jwt.Payload, env: Env, now: nat): (token: string)
    ensures Jwt.CookieSafe(token)
    ensures VerifyToken(token, env, now) == Some(Jwt.Claims(payload, now, now + Jwt.Day))
  {
    Jwt.Sign(payload, JwtSecret(env), now)
  }

  /** `verifyToken(token)` at `now`: the claims, or `None` where the library
      would throw (the `catch` turns every failure into `null`). Only an unexpired
      encoding under the current secret is accepted; the empty token never is. */
  function VerifyToken(token: string, env: Env, now: nat): (r: Option<Jwt.Claims>)
    ensures r.Some? ==> token == Jwt.Encode(r.value, JwtSecret(env)) && now < r.value.exp
    ensures token == "" ==> r.None?
  {
    Jwt.Verify(token, JwtSecret(env), now)
  }

  /** `process.env.NODE_ENV === 'production'`. */
  predicate IsProduction(env: Env) {
    env.nodeEnv == Some("production")
  }

  /** The `{ success: true }` body of both cookie responses. */
  const SuccessBody := JObj(map["success" := JBool(true)])

  /** `setAuthCookie(token)`: a 200 JSON `{ success: true }` response whose one
      `Set-Cookie` carries the token under `auth_token`. */
  function SetAuthCookie(token: string, env: Env): (r: Response)
    ensures r.status == 200 && r.body == JsonBody(SuccessBody)
    ensures |CookiesSet(r)| == 1 && CookiesSet(r)[0].CookieValue?
    ensures var c := CookiesSet(r)[0].cookie;
      && c.name == CookieName && c.value == token
      && c.httpOnly && c.path == "/" && c.sameSite == Lax && c.maxAge == 86400
      && (c.secure <==> IsProduction(env))
  {
    var cookie := Cookie(CookieName, token, true, IsProduction(env), 60 * 60 * 24, "/", Lax);
    var response := JsonResponse(SuccessBody, 200);
    response.(headers := SetHeader(response.headers, SetCookieHeader, CookieValue(cookie)))
  }

  /** `clearAuthCookie()`: the same response with an empty value and `Max-Age=0`. */
  function ClearAuthCookie(env: Env): (r: Response)
    ensures r.status == 200 && r.body == JsonBody(SuccessBody)
    ensures |CookiesSet(r)| == 1 && CookiesSet(r)[0].CookieValue?
    ensures var c := CookiesSet(r)[0].cookie;
      && c.name == CookieName && c.value == ""
      && c.httpOnly && c.path == "/" && c.sameSite == Lax && c.maxAge == 0
      && (c.secure <==> IsProduction(env))
  {
    var cookie := Cookie(CookieName, "", true, IsProduction(env), 0, "/", Lax);
    var response := JsonResponse(SuccessBody, 200);
    response.(headers := SetHeader(response.headers, SetCookieHeader, CookieValue(cookie)))
  }

  /** The cookie a response sets, when it sets exactly one. */
  function TheCookie(r: Response): Cookie
    requires |CookiesSet(r)| == 1 && CookiesSet(r)[0].CookieValue?
  {
    CookiesSet(r)[0].cookie
  }

  /** The clearing cookie differs from the session cookie only in value and Max-Age. */
  lemma ClearMirrorsSet(token: string, env: Env)
    ensures TheCookie(ClearAuthCookie(env))
         == TheCookie(SetAuthCookie(token, env)).(value := "", maxAge := 0)
    ensures ClearAuthCookie(env).status == SetAuthCookie(token, env).status
    ensures ClearAuthCookie(env).body == SetAuthCookie(token, env).body
  {
  }

  /** Both responses carry exactly the JSON content type besides their cookie. */
  lemma OtherHeadersKept(token: string, env: Env, name: string)
    requires name != SetCookieHeader
    ensures ValuesOf(SetAuthCookie(token, env).headers, name)
         == ValuesOf(ClearAuthCookie(env).headers, name)
         == if name == ContentType then [Plain("application/json")] else []
  {
    var base := JsonResponse(SuccessBody, 200).headers;
    assert base == [Header(ContentType, Plain("application/json"))];
    assert ValuesOf(base, name) == (if name == ContentType then [Plain("application/json")] else []) + ValuesOf([], name);
  }

  /** Token round trip under one environment: a token issued at `iat` verifies to
      `{ userId, iat, exp: iat + 1 day }` until `now` reaches `exp`, and to `None` after. */
  lemma TokenRoundTrip(payload: Jwt.Payload, env: Env, iat: nat, now: nat)
    ensures VerifyToken(CreateToken(payload, env, iat), env, now)
         == if now < iat + Jwt.Day then Some(Jwt.Claims(payload, iat, iat + Jwt.Day)) else None
  {
    Jwt.SignVerify(payload, JwtSecret(env), iat, now);
  }

  /** A token issued under one secret is refused under any other. */
  lemma ForeignSecretRejected(payload: Jwt.Payload, issuer: Env, verifier: Env, iat: nat, now: nat)
    requires JwtSecret(issuer) != JwtSecret(verifier)
    ensures VerifyToken(CreateToken(payload, issuer, iat), verifier, now) == None
  {
    Jwt.WrongSecretRejected(payload, JwtSecret(issuer), JwtSecret(verifier), iat, now);
  }

  /** What `verifyToken` accepts: exactly the encodings, under the current secret, of
      any claims with `now < exp`. Like `verify`, it does not check that `exp` is
      `iat` plus one day. */
  lemma VerifyTokenExactly(token: string, env: Env, now: nat, c: Jwt.Claims)
    ensures VerifyToken(token, env, now) == Some(c)
        <==> token == Jwt.Encode(c, JwtSecret(env)) && now < c.exp
  {
    Jwt.VerifyExactly(token, JwtSecret(env), now, c);
  }

  /** A browser that receives the session cookie holds the token under `auth_token`;
      receiving the clearing cookie afterwards removes it, other cookies untouched. */
  lemma LoginThenLogout(jar: CookieJar, token: string, env: Env)
    ensures var afterLogin := ReceiveResponse(jar, SetAuthCookie(token, env));
      && CookieName in afterLogin && afterLogin[CookieName] == token
      && CookieName !in ReceiveResponse(afterLogin, ClearAuthCookie(env))
      && ReceiveResponse(afterLogin, ClearAuthCookie(env)) == jar - {CookieName}
  {
    var afterLogin := ReceiveResponse(jar, SetAuthCookie(token, env));
    ReceiveOne(jar, CookiesSet(SetAuthCookie(token, env)));
    ReceiveOne(afterLogin, CookiesSet(ClearAuthCookie(env)));
    assert afterLogin == jar[CookieName := token];
    assert ReceiveResponse(afterLogin, ClearAuthCookie(env)) == afterLogin - {CookieName};
    assert afterLogin - {CookieName} == jar - {CookieName};
  }
}
