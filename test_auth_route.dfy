/**
 * src/app/api/test-auth/route.ts: issues the session cookie for any truthy
 * `userId` in the body, without consulting the identity service.
 */
module TestAuthRoute {
  import opened Values
  import opened Http
  import opened Store
  import Jwt
  import AuthLib

  const UserIdRequired := "userId é obrigatório"

  /** `POST(request)` at `now`, where `userId` is the body's member, `None` when absent:
      200 exactly for a truthy `userId`, otherwise 400 without a cookie. */
  function Post(userId: Option<Scalar>, env: AuthLib.Env, now: nat): (r: Response)
    ensures r.status == 200 <==> Present(userId)
    ensures r.status != 200 ==> r.status == 400 && SetsNoCookie(r)
  {
    if !Present(userId) then
      JsonSetsNoCookie(FailureBody(UserIdRequired), 400);
      JsonResponse(FailureBody(UserIdRequired), 400)
    else
      AuthLib.SetAuthCookie(AuthLib.CreateToken(Jwt.Payload(userId.value), env, now), env)
  }

  /** A missing or falsy `userId` (null, false, 0, "") is refused with 400 and no
      cookie; any other is answered with `setAuthCookie` and `{ success: true }`. */
  lemma Outcomes(userId: Option<Scalar>, env: AuthLib.Env, now: nat)
    ensures var r := Post(userId, env, now);
      && (!Present(userId) <==> r.status == 400)
      && (!Present(userId) ==> r.body == JsonBody(FailureBody(UserIdRequired)) && SetsNoCookie(r))
      && (Present(userId) ==> r.status == 200 && r.body == JsonBody(AuthLib.SuccessBody) && !SetsNoCookie(r))
  {
    var base := [Header(ContentType, Plain("application/json"))];
    assert ValuesOf(base, SetCookieHeader) == ValuesOf(base[1..], SetCookieHeader);
  }

  /** The cookie's token carries exactly `{ userId }`, for one day from `now`. */
  lemma TokenCarriesUserId(userId: Scalar, env: AuthLib.Env, now: nat, later: nat)
    requires Truthy(userId)
    ensures var c := AuthLib.TheCookie(Post(Some(userId), env, now));
      && c.name == AuthLib.CookieName
      && AuthLib.VerifyToken(c.value, env, later)
         == if later < now + Jwt.Day then Some(Jwt.Claims(Jwt.Payload(userId), now, now + Jwt.Day)) else None
  {
    AuthLib.TokenRoundTrip(Jwt.Payload(userId), env, now, later);
  }

  /** Distinct `userId`s get distinct tokens, under one environment and clock. */
  lemma DistinctUsersDistinctTokens(u1: Scalar, u2: Scalar, env: AuthLib.Env, now: nat)
    requires Truthy(u1) && Truthy(u2) && u1 != u2
    ensures AuthLib.TheCookie(Post(Some(u1), env, now)).value != AuthLib.TheCookie(Post(Some(u2), env, now)).value
  {
    AuthLib.TokenRoundTrip(Jwt.Payload(u1), env, now, now);
    AuthLib.TokenRoundTrip(Jwt.Payload(u2), env, now, now);
  }
}
