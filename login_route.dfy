/**
 * src/app/api/auth/login/route.ts: the login-only handler. It passes the
 * credentials to the identity service and turns its reply into 400, 404, or
 * the session cookie.
 */
module LoginRoute {
  import opened Values
  import opened Http
  import opened Store
  import Jwt
  import AuthLib

  const UserNotFound := "Usuário não encontrado"

  /** `POST(request)` at `now`, given the identity service's reply to
      `signInWithPassword({ email, password })`. Only a reply with a user and no
      error is answered 200, and only the 200 answer sets a cookie. */
  function Post(reply: AuthReply, env: AuthLib.Env, now: nat): (r: Response)
    ensures r.status == 200 <==> reply.error.None? && reply.user.Some?
    ensures r.status != 200 ==> SetsNoCookie(r)
  {
    if reply.error.Some? then
      JsonSetsNoCookie(FailureBody(reply.error.value), 400);
      JsonResponse(FailureBody(reply.error.value), 400)
    else if reply.user.None? then
      JsonSetsNoCookie(FailureBody(UserNotFound), 404);
      JsonResponse(FailureBody(UserNotFound), 404)
    else
      var token := AuthLib.CreateToken(Jwt.Payload(JStr(reply.user.value.id)), env, now);
      AuthLib.SetAuthCookie(token, env)
  }

  /** An error is reported as 400 with its message, even when a user came with it. */
  lemma ErrorWins(reply: AuthReply, env: AuthLib.Env, now: nat)
    requires reply.error.Some?
    ensures Post(reply, env, now) == JsonResponse(FailureBody(reply.error.value), 400)
    ensures SetsNoCookie(Post(reply, env, now))
  {
    assert ValuesOf(Post(reply, env, now).headers, SetCookieHeader)
        == ValuesOf([Header(ContentType, Plain("application/json"))][1..], SetCookieHeader);
  }

  /** The status is 400 with the error's message, 404 with `'Usuário não
      encontrado'`, or 200, and only the 200 answer sets a cookie. */
  lemma OnlySuccessSetsCookie(reply: AuthReply, env: AuthLib.Env, now: nat)
    ensures var r := Post(reply, env, now);
      && (r.status == 400 <==> reply.error.Some?)
      && (r.status == 400 ==> r.body == JsonBody(FailureBody(reply.error.value)))
      && (r.status == 404 <==> reply.error.None? && reply.user.None?)
      && (r.status == 404 ==> r.body == JsonBody(FailureBody(UserNotFound)))
      && (r.status == 200 <==> reply.error.None? && reply.user.Some?)
      && (SetsNoCookie(r) <==> r.status != 200)
  {
    var base := [Header(ContentType, Plain("application/json"))];
    assert ValuesOf(base, SetCookieHeader) == ValuesOf(base[1..], SetCookieHeader);
  }

  /** On success the cookie holds a token that `verifyToken` decodes, for a day,
      to `{ userId: user.id }` issued at `now`. */
  lemma SuccessIssuesUserToken(reply: AuthReply, env: AuthLib.Env, now: nat, later: nat)
    requires reply.error.None? && reply.user.Some?
    ensures var c := AuthLib.TheCookie(Post(reply, env, now));
      AuthLib.VerifyToken(c.value, env, later)
      == if later < now + Jwt.Day
         then Some(Jwt.Claims(Jwt.Payload(JStr(reply.user.value.id)), now, now + Jwt.Day))
         else None
  {
    AuthLib.TokenRoundTrip(Jwt.Payload(JStr(reply.user.value.id)), env, now, later);
  }
}
