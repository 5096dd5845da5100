/**
 * src/app/api/verify-token/route.ts: `GET` reads the raw `Cookie` request
 * header, picks out `auth_token` with split/find/split, verifies it and
 * answers 401 or 200.
 */
module VerifyTokenRoute {
  import opened Values
  import opened Text
  import opened Http
  import Jwt
  import AuthLib

  const Prefix := "auth_token="

  /** `rows.findIndex(row => row.startsWith(prefix))`. */
  function FindIndex(rows: seq<string>, prefix: string): (r: Option<nat>)
    ensures r.Some? ==> r.value < |rows| && StartsWith(rows[r.value], prefix)
    ensures r.Some? ==> forall j :: 0 <= j < r.value ==> !StartsWith(rows[j], prefix)
    ensures r.None? ==> forall j :: 0 <= j < |rows| ==> !StartsWith(rows[j], prefix)
    decreases |rows|
  {
    if |rows| == 0 then None
    else if StartsWith(rows[0], prefix) then Some(0)
    else match FindIndex(rows[1..], prefix)
      case None => None
      case Some(i) => Some(i + 1)
  }

  /** `rows.find(row => row.startsWith(prefix))`: the first such row, or `undefined`. */
  function Find(rows: seq<string>, prefix: string): Option<string> {
    match FindIndex(rows, prefix)
    case None => None
    case Some(i) => Some(rows[i])
  }

  /** A piece of a split on "=" holds no '='. */
  lemma NoEqualsIn(x: string)
    requires !Contains(x, "=")
    ensures '=' !in x
  {
    forall k | 0 <= k < |x| ensures x[k] != '=' {
      OneCharOccurs(x, '=', k);
    }
  }

  /** `cookie.split('; ').find(row => row.startsWith('auth_token='))?.split('=')[1]`,
      with `request.headers.get('cookie') || ''` for a missing header. Without a
      header there is no token, and a token found never holds '='. */
  function ExtractToken(header: Option<string>): (r: Option<string>)
    ensures header.None? ==> r.None?
    ensures r.Some? ==> '=' !in r.value
  {
    var cookie := header.GetOr("");
    SplitWhole("", "; ");
    match Find(Split(cookie, "; "), Prefix)
    case None => None
    case Some(row) =>
      var parts := Split(row, "=");
      if |parts| >= 2 then
        NoEqualsIn(parts[1]);
        Some(parts[1])
      else None
  }

  const TokenNotFound := JsonResponse(JObj(map["error" := JStr("Token not found")]), 401)
  const TokenInvalid := JsonResponse(JObj(map["error" := JStr("Invalid or expired token")]), 401)

  /** The decoded claims object, as `verify` returns it: `{ userId, iat, exp }`. */
  function ClaimsJson(c: Jwt.Claims): Json {
    JObj(map["userId" := c.payload.userId, "iat" := JNum(c.iat), "exp" := JNum(c.exp)])
  }

  function TokenValid(c: Jwt.Claims): Response {
    JsonResponse(JObj(map["message" := JStr("Token is valid"), "data" := ClaimsJson(c)]), 200)
  }

  /** `GET(request)` at time `now`: 200 exactly when a token is found and
      `verifyToken` accepts it, and otherwise one of the two 401 answers. */
  function Handle(header: Option<string>, env: AuthLib.Env, now: nat): (r: Response)
    ensures r.status == 200 <==>
      ExtractToken(header).Some? && AuthLib.VerifyToken(ExtractToken(header).value, env, now).Some?
    ensures r.status != 200 ==> r == TokenNotFound || r == TokenInvalid
  {
    var token := ExtractToken(header);
    if !NonEmpty(token) then TokenNotFound
    else
      match AuthLib.VerifyToken(token.value, env, now)
      case None => TokenInvalid
      case Some(decoded) => TokenValid(decoded)
  }

  // ------------------------------------------------------------ reference side

  /** A `cookie-pair` of section 4.2.1 of RFC 6265. */
  datatype CookiePair = CookiePair(name: string, value: string)

  /** Names hold neither '=' nor ';'; values hold no ';'. */
  predicate WellFormed(pairs: seq<CookiePair>) {
    forall k :: 0 <= k < |pairs| ==> '=' !in pairs[k].name && ';' !in pairs[k].name && ';' !in pairs[k].value
  }

  function Row(p: CookiePair): string {
    p.name + "=" + p.value
  }

  function Rows(pairs: seq<CookiePair>): (r: seq<string>)
    ensures |r| == |pairs| && forall k :: 0 <= k < |pairs| ==> r[k] == Row(pairs[k])
  {
    seq(|pairs|, k requires 0 <= k < |pairs| => Row(pairs[k]))
  }

  /** The header a user agent sends: `cookie-pair *( "; " cookie-pair )`. */
  function CookieHeader(pairs: seq<CookiePair>): string {
    Join(Rows(pairs), "; ")
  }

  /** The value of the first pair called `name`. */
  function FirstValue(pairs: seq<CookiePair>, name: string): Option<string>
    decreases |pairs|
  {
    if |pairs| == 0 then None
    else if pairs[0].name == name then Some(pairs[0].value)
    else FirstValue(pairs[1..], name)
  }

  lemma CookieNameHasNoEquals()
    ensures '=' !in AuthLib.CookieName
    ensures Prefix == AuthLib.CookieName + "="
  {
  }

  /** A row starts with `auth_token=` exactly when its pair is called `auth_token`. */
  lemma RowStartsWithPrefix(p: CookiePair)
    requires '=' !in p.name
    ensures StartsWith(Row(p), Prefix) <==> p.name == AuthLib.CookieName
  {
    var r := Row(p);
    CookieNameHasNoEquals();
    if StartsWith(r, Prefix) {
      var v := r[|Prefix|..];
      assert r == Prefix + v;
      assert r == AuthLib.CookieName + "=" + v;
      TakeUntilFirst(AuthLib.CookieName, '=', v);
      TakeUntilFirst(p.name, '=', p.value);
    }
    if p.name == AuthLib.CookieName {
      assert r == Prefix + p.value;
      assert r[..|Prefix|] == Prefix;
    }
  }

  /** Finding the row of the first `auth_token` pair. */
  lemma {:induction false} FindRow(pairs: seq<CookiePair>)
    requires WellFormed(pairs)
    ensures Find(Rows(pairs), Prefix)
         == match FirstValue(pairs, AuthLib.CookieName)
            case None => None
            case Some(v) => Some(Row(CookiePair(AuthLib.CookieName, v)))
    decreases |pairs|
  {
    if |pairs| > 0 {
      RowStartsWithPrefix(pairs[0]);
      assert Rows(pairs)[1..] == Rows(pairs[1..]);
      assert WellFormed(pairs[1..]) by {
        forall k | 0 <= k < |pairs| - 1 ensures pairs[1..][k] == pairs[k + 1] { }
      }
      FindRow(pairs[1..]);
    }
  }

  /** The token taken from a row `auth_token=<v>`: `v` up to its first '='. */
  lemma TokenOfRow(v: string)
    ensures var parts := Split(Row(CookiePair(AuthLib.CookieName, v)), "=");
      |parts| >= 2 && parts[1] == TakeUntil(v, '=')
  {
    SplitAfterPiece(AuthLib.CookieName, "=", v);
    SplitOneCharHead(v, '=');
  }

  /** On a well-formed header the parser finds the first `auth_token` pair and
      keeps its value up to the first '=' (the rest of the value is dropped). */
  lemma ExtractFromHeader(pairs: seq<CookiePair>)
    requires WellFormed(pairs)
    ensures ExtractToken(Some(CookieHeader(pairs)))
         == match FirstValue(pairs, AuthLib.CookieName)
            case None => None
            case Some(v) => Some(TakeUntil(v, '='))
  {
    if |pairs| == 0 {
      assert CookieHeader(pairs) == "";
      SplitWhole("", "; ");
    } else {
      forall k | 0 <= k < |Rows(pairs)|
        ensures ';' !in Rows(pairs)[k]
      {
        assert Rows(pairs)[k] == pairs[k].name + "=" + pairs[k].value;
      }
      SplitJoin(Rows(pairs), "; ");
      FindRow(pairs);
      match FirstValue(pairs, AuthLib.CookieName)
      case None =>
      case Some(v) => TokenOfRow(v);
    }
  }

  /** A header without the two-character separator is one row: unless it begins
      with `auth_token=`, no token is found (so `a=1;auth_token=x` and
      `xauth_token=v` give none). */
  lemma SingleRowHeader(h: string)
    requires !Contains(h, "; ")
    requires !StartsWith(h, Prefix)
    ensures ExtractToken(Some(h)) == None
  {
  }

  /** No `Cookie` header: 401 "Token not found", without any verification. */
  lemma MissingHeader(env: AuthLib.Env, now: nat)
    ensures Handle(None, env, now) == TokenNotFound
  {
  }

  /** The three answers to a well-formed header. With `v` the value of its first
      `auth_token` pair: no such pair, or a `v` that is empty before its first '=',
      gives 401 "Token not found"; otherwise the token `v` up to its first '=' is
      verified, giving 401 "Invalid or expired token" or 200 with its claims. */
  lemma HeaderOutcomes(pairs: seq<CookiePair>, env: AuthLib.Env, now: nat)
    requires WellFormed(pairs)
    ensures var v := FirstValue(pairs, AuthLib.CookieName);
      && (v.None? || TakeUntil(v.value, '=') == "" ==>
            Handle(Some(CookieHeader(pairs)), env, now) == TokenNotFound)
      && (v.Some? && TakeUntil(v.value, '=') != "" ==>
            Handle(Some(CookieHeader(pairs)), env, now)
            == match AuthLib.VerifyToken(TakeUntil(v.value, '='), env, now)
               case None => TokenInvalid
               case Some(c) => TokenValid(c))
  {
    ExtractFromHeader(pairs);
  }

  /** The header of a single `auth_token` pair is `auth_token=` followed by the
      value, and the pair is well formed when the value holds no ';'. */
  lemma OnePairHeader(v: string)
    ensures CookieHeader([CookiePair(AuthLib.CookieName, v)]) == Prefix + v
    ensures FirstValue([CookiePair(AuthLib.CookieName, v)], AuthLib.CookieName) == Some(v)
    ensures ';' !in v ==> WellFormed([CookiePair(AuthLib.CookieName, v)])
  {
    var pairs := [CookiePair(AuthLib.CookieName, v)];
    assert Rows(pairs) == [Row(pairs[0])];
    CookieNameHasNoEquals();
  }

  /** A header whose only pair is `auth_token=` with nothing after it is answered
      401 "Token not found". */
  lemma EmptyValueNotFound(env: AuthLib.Env, now: nat)
    ensures Handle(Some(Prefix), env, now) == TokenNotFound
  {
    OnePairHeader("");
    assert Prefix + "" == Prefix;
    HeaderOutcomes([CookiePair(AuthLib.CookieName, "")], env, now);
  }

  /** An issued token holds none of the characters that end a cookie pair or value. */
  lemma IssuedTokenFitsCookie(payload: Jwt.Payload, env: AuthLib.Env, iat: nat)
    ensures var token := AuthLib.CreateToken(payload, env, iat);
      '=' !in token && ';' !in token && ' ' !in token && token != ""
  {
    var token := AuthLib.CreateToken(payload, env, iat);
    assert AuthLib.VerifyToken(token, env, iat).Some?;
  }

  /** A browser that sent back a freshly issued token (as the first `auth_token`
      pair of a well-formed header) gets 200 with its claims while the token is
      younger than a day, and 401 "Invalid or expired token" afterwards. */
  lemma IssuedTokenAccepted(pairs: seq<CookiePair>, payload: Jwt.Payload, env: AuthLib.Env, iat: nat, now: nat)
    requires WellFormed(pairs)
    requires FirstValue(pairs, AuthLib.CookieName) == Some(AuthLib.CreateToken(payload, env, iat))
    ensures Handle(Some(CookieHeader(pairs)), env, now)
         == if now < iat + Jwt.Day then TokenValid(Jwt.Claims(payload, iat, iat + Jwt.Day)) else TokenInvalid
  {
    var token := AuthLib.CreateToken(payload, env, iat);
    IssuedTokenFitsCookie(payload, env, iat);
    ExtractFromHeader(pairs);
    TakeUntilWhole(token, '=');
    AuthLib.TokenRoundTrip(payload, env, iat, now);
  }

  /** The header `auth_token=<token>` of a browser holding only the session cookie,
      whatever the secret: 200 with the claims for a day, then 401. */
  lemma SoleCookieAccepted(payload: Jwt.Payload, env: AuthLib.Env, iat: nat, now: nat)
    ensures Handle(Some(Prefix + AuthLib.CreateToken(payload, env, iat)), env, now)
         == if now < iat + Jwt.Day then TokenValid(Jwt.Claims(payload, iat, iat + Jwt.Day)) else TokenInvalid
  {
    var token := AuthLib.CreateToken(payload, env, iat);
    IssuedTokenFitsCookie(payload, env, iat);
    OnePairHeader(token);
    IssuedTokenAccepted([CookiePair(AuthLib.CookieName, token)], payload, env, iat, now);
  }
}
