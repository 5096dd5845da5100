/**
 * HTTP responses as route handlers build them: a status, a header list and a
 * body. `Set-Cookie` values are cookie records (name, value and the attributes
 * of section 4.1 of RFC 6265) rather than serialised strings. A small user-agent
 * model (section 5.3 of RFC 6265) shows what a browser keeps after receiving one.
 */
module Http {
  import opened Values

  datatype SameSite = Strict | Lax | NoRestriction

  datatype Cookie = Cookie(
    name: string,
    value: string,
    httpOnly: bool,
    secure: bool,
    maxAge: int,
    path: string,
    sameSite: SameSite)

  datatype HeaderValue = Plain(text: string) | CookieValue(cookie: Cookie) | ListValue(items: seq<string>)

  /** A header: its (lower-case) name and its value. */
  datatype Header = Header(name: string, value: HeaderValue)

  datatype Body = JsonBody(json: Json) | TextBody(text: string) | NoBody

  datatype Response = Response(status: int, headers: seq<Header>, body: Body)

  const ContentType := "content-type"
  const SetCookieHeader := "set-cookie"

  /** The values of the headers called `name`, in order. */
  function ValuesOf(headers: seq<Header>, name: string): seq<HeaderValue>
    decreases |headers|
  {
    if |headers| == 0 then []
    else (if headers[0].name == name then [headers[0].value] else []) + ValuesOf(headers[1..], name)
  }

  /** The header list without any header called `name`. */
  function RemoveAll(headers: seq<Header>, name: string): (r: seq<Header>)
    ensures ValuesOf(r, name) == []
    ensures forall m :: m != name ==> ValuesOf(r, m) == ValuesOf(headers, m)
    decreases |headers|
  {
    if |headers| == 0 then []
    else if headers[0].name == name then RemoveAll(headers[1..], name)
    else [headers[0]] + RemoveAll(headers[1..], name)
  }

  lemma ValuesOfCons(h: Header, rest: seq<Header>, m: string)
    ensures ValuesOf([h] + rest, m) == (if h.name == m then [h.value] else []) + ValuesOf(rest, m)
  {
    assert ([h] + rest)[1..] == rest;
  }

  /** `headers.set(name, value)` (WHATWG Fetch): the first header of that name
      takes the new value, any later ones are dropped, or the header is appended.
      Afterwards exactly one header has that name, and the others are untouched. */
  function SetHeader(headers: seq<Header>, name: string, value: HeaderValue): (r: seq<Header>)
    ensures ValuesOf(r, name) == [value]
    ensures forall m :: m != name ==> ValuesOf(r, m) == ValuesOf(headers, m)
    decreases |headers|
  {
    if |headers| == 0 then
      [Header(name, value)]
    else if headers[0].name == name then
      var r := [Header(name, value)] + RemoveAll(headers[1..], name);
      forall m ensures ValuesOf(r, m) == (if m == name then [value] else ValuesOf(headers, m)) {
        ValuesOfCons(Header(name, value), RemoveAll(headers[1..], name), m);
        ValuesOfCons(headers[0], headers[1..], m);
        assert headers == [headers[0]] + headers[1..];
      }
      r
    else
      var r := [headers[0]] + SetHeader(headers[1..], name, value);
      forall m ensures ValuesOf(r, m) == (if m == name then [value] else ValuesOf(headers, m)) {
        ValuesOfCons(headers[0], SetHeader(headers[1..], name, value), m);
        ValuesOfCons(headers[0], headers[1..], m);
        assert headers == [headers[0]] + headers[1..];
      }
      r
  }

  /** `NextResponse.json(value, { status })` and a
      `new Response(JSON.stringify(value), ...)` with a JSON content type. */
  function JsonResponse(value: Json, status: int): Response {
    Response(status, [Header(ContentType, Plain("application/json"))], JsonBody(value))
  }

  /** `res.status(status).json(value)` in a pages-router API handler, whose
      content type names the character set. */
  function ApiJsonResponse(value: Json, status: int): Response {
    Response(status, [Header(ContentType, Plain("application/json; charset=utf-8"))], JsonBody(value))
  }

  /** A plain JSON answer asks the user agent to store no cookie. */
  lemma JsonSetsNoCookie(value: Json, status: int)
    ensures SetsNoCookie(JsonResponse(value, status))
    ensures SetsNoCookie(ApiJsonResponse(value, status))
  {
    var app, api := JsonResponse(value, status).headers, ApiJsonResponse(value, status).headers;
    assert ValuesOf(app, SetCookieHeader) == ValuesOf(app[1..], SetCookieHeader);
    assert ValuesOf(api, SetCookieHeader) == ValuesOf(api[1..], SetCookieHeader);
  }

  /** The cookies a response asks the user agent to store. */
  function CookiesSet(r: Response): seq<HeaderValue> {
    ValuesOf(r.headers, SetCookieHeader)
  }

  predicate SetsNoCookie(r: Response) {
    CookiesSet(r) == []
  }

  /** The user agent's cookie store, reduced to name and value (one host, path "/"). */
  type CookieJar = map<string, string>

  /** Receiving a `Set-Cookie` (section 5.3 of RFC 6265): a positive Max-Age stores
      the cookie, replacing one of the same name; Max-Age 0 or less gives the cookie
      the earliest expiry time (section 5.2.2), so the store drops it. */
  function Receive(jar: CookieJar, c: Cookie): (r: CookieJar)
    ensures c.maxAge > 0 ==> c.name in r && r[c.name] == c.value
    ensures c.maxAge <= 0 ==> c.name !in r
    ensures forall n :: n != c.name ==> (n in r <==> n in jar) && (n in r ==> r[n] == jar[n])
  {
    if c.maxAge > 0 then jar[c.name := c.value] else jar - {c.name}
  }

  /** A cookie received later under the same name supersedes the earlier one
      (section 5.3, step 11, of RFC 6265): only the last one received tells. */
  lemma SameNameSupersedes(jar: CookieJar, c1: Cookie, c2: Cookie)
    requires c1.name == c2.name
    ensures Receive(Receive(jar, c1), c2) == Receive(jar, c2)
  {
  }

  /** Applies every `Set-Cookie` of a response, in order. */
  function ReceiveAll(jar: CookieJar, values: seq<HeaderValue>): CookieJar
    decreases |values|
  {
    if |values| == 0 then jar
    else
      var next := if values[0].CookieValue? then Receive(jar, values[0].cookie) else jar;
      ReceiveAll(next, values[1..])
  }

  lemma ReceiveOne(jar: CookieJar, values: seq<HeaderValue>)
    requires |values| == 1 && values[0].CookieValue?
    ensures ReceiveAll(jar, values) == Receive(jar, values[0].cookie)
  {
    assert values[1..] == [];
  }

  function ReceiveResponse(jar: CookieJar, r: Response): CookieJar {
    ReceiveAll(jar, CookiesSet(r))
  }
}
