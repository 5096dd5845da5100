/**
 * src/middleware.ts: the request gate in front of the protected pages. It
 * checks that an `auth_token` cookie is present and non-empty; it never
 * verifies the token.
 */
module Middleware {
  import opened Values
  import opened Text
  import AuthLib
  import Http

  /** The parts of a request URL (`req.nextUrl`). */
  datatype Url = Url(protocol: string, host: string, pathname: string, search: string, hash: string)

  /** What the gate does with a request. */
  datatype Decision =
    | Redirect(location: Url)   // NextResponse.redirect(url)
    | Next                      // NextResponse.next()
    | NotMatched                // outside `config.matcher`: the middleware does not run

  const LoginPath := "/login"

  /** `'<prefix>/:path*'`: the prefix itself or any path beneath it. */
  predicate MatchesPattern(path: string, prefix: string) {
    path == prefix || StartsWith(path, prefix + "/")
  }

  /** `config.matcher: ['/dashboard/:path*', '/home/:path*']`. */
  predicate Matches(path: string) {
    MatchesPattern(path, "/dashboard") || MatchesPattern(path, "/home")
  }

  /** `middleware(req)`: redirect to `/login` when `req.cookies.get('auth_token')?.value`
      is missing or empty, else let the request through. */
  function Gate(cookies: map<string, string>, url: Url): (d: Decision)
    ensures d.Redirect? <==> !NonEmpty(Get(cookies, AuthLib.CookieName))
    ensures d.Redirect? ==> d.location == url.(pathname := LoginPath)
    ensures d.Redirect? ==> !Matches(d.location.pathname)
    ensures d.Next? ==> AuthLib.CookieName in cookies
    ensures !d.NotMatched?
  {
    LoginNotGated();
    var token := Get(cookies, AuthLib.CookieName);
    if !NonEmpty(token) then
      var redirectUrl := url.(pathname := LoginPath);
      Redirect(redirectUrl)
    else
      Next
  }

  /** A request as Next.js routes it: the middleware runs only on matched paths, and
      sends a request it turns away to a path it does not run on. */
  function Route(cookies: map<string, string>, url: Url): (d: Decision)
    ensures !Matches(url.pathname) <==> d.NotMatched?
    ensures d.Redirect? ==> Matches(url.pathname) && !Matches(d.location.pathname)
  {
    if Matches(url.pathname) then Gate(cookies, url) else NotMatched
  }

  /** The redirect keeps protocol, host, query and fragment and replaces only the path. */
  lemma RedirectKeepsUrl(cookies: map<string, string>, url: Url)
    requires Route(cookies, url).Redirect?
    ensures var u := Route(cookies, url).location;
      u.protocol == url.protocol && u.host == url.host && u.search == url.search
      && u.hash == url.hash && u.pathname == LoginPath
  {
  }

  /** Any non-empty cookie value passes the gate, whether or not it would verify. */
  lemma PresenceOnly(cookies: map<string, string>, url: Url, env: AuthLib.Env, now: nat)
    requires Matches(url.pathname)
    requires AuthLib.CookieName in cookies && cookies[AuthLib.CookieName] != ""
    requires AuthLib.VerifyToken(cookies[AuthLib.CookieName], env, now) == None
    ensures Route(cookies, url) == Next
  {
  }

  /** Only the `auth_token` cookie matters: two requests that agree on it are
      treated alike whatever their other cookies. */
  lemma OnlyAuthCookieRead(c1: map<string, string>, c2: map<string, string>, url: Url)
    requires Get(c1, AuthLib.CookieName) == Get(c2, AuthLib.CookieName)
    ensures Route(c1, url) == Route(c2, url)
  {
  }

  /** The redirect target is not itself gated, so the redirect cannot loop. */
  lemma LoginNotGated()
    ensures !Matches(LoginPath)
  {
    assert LoginPath[..6][1] != "/home/"[1];
  }

  /** `/dashboards` and `/homepage` merely share a prefix and are not gated;
      `/dashboard/settings` is. */
  lemma MatcherEdges()
    ensures !Matches("/dashboards") && !Matches("/homepage")
    ensures Matches("/dashboard") && Matches("/dashboard/settings") && Matches("/home/")
  {
    assert "/dashboards"[..11][10] != "/dashboard/"[10];
    assert "/homepage"[..6][5] != "/home/"[5];
    assert "/dashboards"[..6][1] != "/home/"[1];
    assert "/dashboard/settings"[..11] == "/dashboard/";
  }

  /** A browser holding the session cookie passes the gate; once it has
      received the clearing cookie it is redirected to `/login`. */
  lemma SessionLifecycle(jar: map<string, string>, token: string, env: AuthLib.Env, url: Url)
    requires Matches(url.pathname) && token != ""
    ensures var afterLogin := Http.ReceiveResponse(jar, AuthLib.SetAuthCookie(token, env));
      && Route(afterLogin, url) == Next
      && Route(Http.ReceiveResponse(afterLogin, AuthLib.ClearAuthCookie(env)), url)
         == Redirect(url.(pathname := LoginPath))
  {
    AuthLib.LoginThenLogout(jar, token, env);
  }
}
