/**
 * A concrete stand-in for the `sign`/`verify` pair of the jsonwebtoken
 * library (an HS256 JSON Web Token, RFC 7519).
 *
 * The signed form is `Net(body) + Mac(secret, body)`, where `Net` writes a
 * length-prefixed field ("<decimal length>:<text>") and `body` holds the
 * claims: the payload's `userId`, `iat` and `exp` (section 4.1 of RFC 7519).
 * `Mac` plays the role of the HMAC: it depends on the secret and the body and
 * two different secrets never give the same signature for the same body.
 * The token spells the signed form in digits and dots only, as a real token
 * uses base64url and dots only, so it never holds '=', ';' or a space.
 * Decoding is canonical, so the verifier accepts exactly the encodings of
 * claims under its secret whose `exp` lies ahead.
 */
module Jwt {
  import opened Values
  import Text

  /** `expiresIn: '1d'`, in seconds. */
  const Day: nat := 60 * 60 * 24

  // ---------------------------------------------------------------- decimals

  predicate IsDigit(c: char) { '0' <= c <= '9' }

  predicate AllDigits(s: string) { forall k :: 0 <= k < |s| ==> IsDigit(s[k]) }

  function DigitChar(d: nat): (c: char)
    requires d < 10
    ensures IsDigit(c)
  {
    (48 + d) as char
  }

  function DigitValue(c: char): (d: nat)
    requires IsDigit(c)
    ensures d < 10 && DigitChar(d) == c
  {
    (c as int) - 48
  }

  /** The canonical decimal spelling of `n`: no sign, no leading zero. */
  predicate Canonical(s: string) {
    |s| >= 1 && AllDigits(s) && (|s| > 1 ==> s[0] != '0')
  }

  /** The number a string of digits spells, read most significant first. */
  function DigitsValue(s: string): nat
    requires AllDigits(s)
    decreases |s|
  {
    if |s| == 0 then 0 else DigitsValue(s[..|s| - 1]) * 10 + DigitValue(s[|s| - 1])
  }

  function NatToString(n: nat): (s: string)
    ensures AllDigits(s) && |s| >= 1
    decreases n
  {
    if n < 10 then [DigitChar(n)] else NatToString(n / 10) + [DigitChar(n % 10)]
  }

  lemma {:induction false} NatToStringLeading(n: nat)
    ensures n >= 1 ==> NatToString(n)[0] != '0'
    decreases n
  {
    if n >= 10 {
      NatToStringLeading(n / 10);
      assert NatToString(n)[0] == NatToString(n / 10)[0];
    }
  }

  /** The decimal spelling of a number is canonical and spells that number. */
  lemma {:induction false} NatToStringCorrect(n: nat)
    ensures Canonical(NatToString(n))
    ensures DigitsValue(NatToString(n)) == n
    decreases n
  {
    NatToStringLeading(n);
    if n >= 10 {
      NatToStringCorrect(n / 10);
      var s := NatToString(n);
      assert s[..|s| - 1] == NatToString(n / 10);
    }
  }

  lemma {:induction false} CanonicalPositive(s: string)
    requires Canonical(s) && s[0] != '0'
    ensures DigitsValue(s) >= 1
    decreases |s|
  {
    if |s| > 1 {
      var p := s[..|s| - 1];
      assert p[0] == s[0];
      CanonicalPositive(p);
    }
  }

  /** A canonical digit string is the spelling of the number it denotes. */
  lemma {:induction false} CanonicalIsSpelling(s: string)
    requires Canonical(s)
    ensures NatToString(DigitsValue(s)) == s
    decreases |s|
  {
    if |s| > 1 {
      var p := s[..|s| - 1];
      assert p[0] == s[0];
      assert Canonical(p);
      CanonicalPositive(p);
      CanonicalIsSpelling(p);
      var v := DigitsValue(s);
      var d := DigitValue(s[|s| - 1]);
      assert v == DigitsValue(p) * 10 + d;
      assert v >= 10 && v / 10 == DigitsValue(p) && v % 10 == d;
      assert s == p + [s[|s| - 1]];
    }
  }

  /** Reads a natural number written canonically. */
  function ParseNat(s: string): (r: Option<nat>)
    ensures r.Some? <==> Canonical(s)
  {
    if Canonical(s) then Some(DigitsValue(s)) else None
  }

  lemma ParseNatRoundTrip(n: nat)
    ensures ParseNat(NatToString(n)) == Some(n)
  {
    NatToStringCorrect(n);
  }

  lemma ParseNatCanonical(s: string, n: nat)
    requires ParseNat(s) == Some(n)
    ensures NatToString(n) == s
  {
    CanonicalIsSpelling(s);
  }

  /** `String(n)` for an integer: an optional '-' and the decimal digits. */
  function IntToString(n: int): string {
    if n < 0 then "-" + NatToString(-n) else NatToString(n)
  }

  /** Reads an integer written as `IntToString` writes it ("-0" is refused). */
  function ParseInt(s: string): (r: Option<int>)
  {
    if |s| >= 1 && s[0] == '-' then
      match ParseNat(s[1..])
      case Some(m) => var negative: int := -(m as int); if m > 0 then Some(negative) else None
      case None => None
    else
      match ParseNat(s)
      case Some(m) => Some(m)
      case None => None
  }

  /** A spelling starts with a digit, so it is never read as negative. */
  lemma ParseIntUnsigned(m: nat)
    ensures ParseInt(NatToString(m)) == Some(m)
  {
    var t := NatToString(m);
    assert IsDigit(t[0]);
    ParseNatRoundTrip(m);
  }

  lemma ParseIntNegative(m: nat)
    requires m > 0
    ensures ParseInt("-" + NatToString(m)) == Some(-(m as int))
  {
    var t := "-" + NatToString(m);
    assert t[1..] == NatToString(m);
    ParseNatRoundTrip(m);
  }

  lemma ParseIntRoundTrip(n: int)
    ensures ParseInt(IntToString(n)) == Some(n)
  {
    if n < 0 {
      ParseIntNegative(-n);
    } else {
      ParseIntUnsigned(n);
    }
  }

  lemma ParseIntCanonical(s: string, n: int)
    requires ParseInt(s) == Some(n)
    ensures IntToString(n) == s
  {
    if |s| >= 1 && s[0] == '-' {
      ParseNatCanonical(s[1..], -n);
      assert s == "-" + s[1..];
    } else {
      ParseNatCanonical(s, n);
    }
  }

  // --------------------------------------------------- length-prefixed fields

  /** A field: its length in decimal, a colon, then its text. */
  function Net(s: string): string {
    NatToString(|s|) + ":" + s
  }

  /** Reads one field from the front of `t`, returning its text and what follows it. */
  function ParseNet(t: string): (r: Option<(string, string)>)
    ensures r.Some? ==> |r.value.1| < |t|
  {
    match Text.IndexOf(t, ":")
    case None => None
    case Some(i) =>
      match ParseNat(t[..i])
      case None => None
      case Some(n) =>
        if i + 1 + n <= |t| then Some((t[i + 1..i + 1 + n], t[i + 1 + n..])) else None
  }

  /** The first occurrence of a non-digit right after a run of digits is the one there. */
  lemma StopAfterDigits(d: string, stop: char, tail: string)
    requires AllDigits(d) && !IsDigit(stop)
    ensures Text.IndexOf(d + [stop] + tail, [stop]) == Some(|d|)
  {
    var t := d + [stop] + tail;
    forall j | 0 <= j < |d|
      ensures !Text.OccursAt(t, [stop], j)
    {
      Text.OneCharOccurs(t, stop, j);
      assert t[j] == d[j];
    }
    Text.OneCharOccurs(t, stop, |d|);
  }

  /** The colon after a field's length is the first colon of the field. */
  lemma NetColon(s: string, rest: string)
    ensures Text.IndexOf(Net(s) + rest, ":") == Some(|NatToString(|s|)|)
  {
    var d := NatToString(|s|);
    assert Net(s) + rest == d + [':'] + (s + rest);
    StopAfterDigits(d, ':', s + rest);
  }

  lemma ParseNetRoundTrip(s: string, rest: string)
    ensures ParseNet(Net(s) + rest) == Some((s, rest))
  {
    var d := NatToString(|s|);
    var t := Net(s) + rest;
    NetColon(s, rest);
    assert t[..|d|] == d;
    ParseNatRoundTrip(|s|);
    assert t[|d| + 1..|d| + 1 + |s|] == s;
    assert t[|d| + 1 + |s|..] == rest;
  }

  lemma ParseNetCanonical(t: string, s: string, rest: string)
    requires ParseNet(t) == Some((s, rest))
    ensures t == Net(s) + rest
  {
    var i := Text.IndexOf(t, ":").value;
    var n := ParseNat(t[..i]).value;
    ParseNatCanonical(t[..i], n);
    Text.OneCharOccurs(t, ':', i);
    assert t == t[..i] + ":" + t[i + 1..i + 1 + n] + t[i + 1 + n..];
  }

  // ---------------------------------------------------- cookie-safe spelling

  /** Written in digits and '.' alone: every character is a `cookie-octet`
      (section 4.1.1 of RFC 6265), and none is '=', ';' or a space. */
  predicate CookieSafe(t: string) {
    forall k :: 0 <= k < |t| ==> IsDigit(t[k]) || t[k] == '.'
  }

  /** The integers that are Unicode scalar values: the values of a `char`. */
  predicate IsCodePoint(n: int) {
    0 <= n < 0xD800 || 0xE000 <= n < 0x11_0000
  }

  lemma CookieSafeCons(d: string, tail: string)
    requires AllDigits(d) && CookieSafe(tail)
    ensures CookieSafe(d + "." + tail)
  {
    var t := d + "." + tail;
    forall k | 0 <= k < |t| ensures IsDigit(t[k]) || t[k] == '.' {
      if k < |d| {
        assert t[k] == d[k];
      } else if k > |d| {
        assert t[k] == tail[k - |d| - 1];
      }
    }
  }

  /** Each character as its code point in decimal, followed by '.'. */
  function Armor(s: string): (t: string)
    ensures CookieSafe(t)
    ensures |s| > 0 ==> |t| > 0
    decreases |s|
  {
    if |s| == 0 then ""
    else
      CookieSafeCons(NatToString(s[0] as int), Armor(s[1..]));
      NatToString(s[0] as int) + "." + Armor(s[1..])
  }

  /** Reads a spelling back: code points, each ended by '.', that are scalar values. */
  function Unarmor(t: string): Option<string>
    decreases |t|
  {
    if |t| == 0 then Some("")
    else
      match Text.IndexOf(t, ".")
      case None => None
      case Some(i) =>
        match ParseNat(t[..i])
        case None => None
        case Some(n) =>
          if !IsCodePoint(n) then None
          else
            match Unarmor(t[i + 1..])
            case None => None
            case Some(rest) => Some([n as char] + rest)
  }

  /** The spelling of one character at the front reads back as that character. */
  lemma UnarmorStep(c: char, u: string)
    ensures Unarmor(NatToString(c as int) + "." + u)
         == match Unarmor(u) case None => None case Some(r) => Some([c] + r)
  {
    var d := NatToString(c as int);
    var t := d + "." + u;
    assert t == d + ['.'] + u;
    StopAfterDigits(d, '.', u);
    assert t[..|d|] == d;
    ParseNatRoundTrip(c as int);
    assert t[|d| + 1..] == u;
  }

  lemma {:induction false} ArmorRoundTrip(s: string)
    ensures Unarmor(Armor(s)) == Some(s)
    decreases |s|
  {
    if |s| > 0 {
      ArmorRoundTrip(s[1..]);
      UnarmorStep(s[0], Armor(s[1..]));
      assert [s[0]] + s[1..] == s;
    }
  }

  /** A spelling whose first code point is `n` begins with `n`'s digits and a '.'. */
  lemma UnarmorFront(t: string, i: nat, n: nat)
    requires Text.IndexOf(t, ".") == Some(i) && ParseNat(t[..i]) == Some(n)
    ensures t == NatToString(n) + "." + t[i + 1..]
  {
    ParseNatCanonical(t[..i], n);
    Text.OneCharOccurs(t, '.', i);
    assert t == t[..i] + "." + t[i + 1..];
  }

  /** A spelling reads back only from its own characters. */
  lemma {:induction false} ArmorCanonical(t: string, s: string)
    requires Unarmor(t) == Some(s)
    ensures Armor(s) == t
    decreases |t|
  {
    if |t| > 0 {
      var i := Text.IndexOf(t, ".").value;
      var n := ParseNat(t[..i]).value;
      var rest := Unarmor(t[i + 1..]).value;
      UnarmorFront(t, i, n);
      ArmorCanonical(t[i + 1..], rest);
      assert s == [n as char] + rest;
      assert s[0] as int == n && s[1..] == rest;
    }
  }

  // ------------------------------------------------------------------ claims

  /** The payload handed to `createToken`: every caller passes `{ userId }`. */
  datatype Payload = Payload(userId: Scalar)

  /** What `verify` returns: the payload with the registered claims `iat` and `exp`
      (sections 4.1.6 and 4.1.4 of RFC 7519), both in seconds. */
  datatype Claims = Claims(payload: Payload, iat: nat, exp: nat)

  function EncodeScalar(v: Scalar): string {
    if v.JNull? then "z"
    else if v.JBool? then (if v.b then "t" else "f")
    else if v.JNum? then "n" + Net(IntToString(v.n))
    else "s" + Net(v.s)
  }

  /** Reads the field of a number `userId`, after its tag. */
  function DecodeNumField(u: string): (r: Option<(Scalar, string)>)
    ensures r.Some? ==> |r.value.1| < |u|
  {
    match ParseNet(u)
    case None => None
    case Some((d, rest)) =>
      match ParseInt(d)
      case None => None
      case Some(n) => Some((JNum(n), rest))
  }

  /** Reads the field of a string `userId`, after its tag. */
  function DecodeStrField(u: string): (r: Option<(Scalar, string)>)
    ensures r.Some? ==> |r.value.1| < |u|
  {
    match ParseNet(u)
    case None => None
    case Some((s, rest)) => Some((JStr(s), rest))
  }

  function DecodeScalar(t: string): (r: Option<(Scalar, string)>)
    ensures r.Some? ==> |r.value.1| < |t|
  {
    if |t| == 0 then None
    else if t[0] == 'z' then Some((JNull, t[1..]))
    else if t[0] == 't' then Some((JBool(true), t[1..]))
    else if t[0] == 'f' then Some((JBool(false), t[1..]))
    else if t[0] == 'n' then DecodeNumField(t[1..])
    else if t[0] == 's' then DecodeStrField(t[1..])
    else None
  }

  lemma DecodeNumFieldRoundTrip(n: int, rest: string)
    ensures DecodeNumField(Net(IntToString(n)) + rest) == Some((JNum(n), rest))
  {
    ParseNetRoundTrip(IntToString(n), rest);
    ParseIntRoundTrip(n);
  }

  lemma DecodeStrFieldRoundTrip(s: string, rest: string)
    ensures DecodeStrField(Net(s) + rest) == Some((JStr(s), rest))
  {
    ParseNetRoundTrip(s, rest);
  }

  lemma DecodeNumFieldCanonical(u: string, n: int, rest: string)
    requires DecodeNumField(u) == Some((JNum(n), rest))
    ensures u == Net(IntToString(n)) + rest
  {
    var (d, rest') := ParseNet(u).value;
    ParseNetCanonical(u, d, rest');
    ParseIntCanonical(d, n);
  }

  lemma DecodeStrFieldCanonical(u: string, s: string, rest: string)
    requires DecodeStrField(u) == Some((JStr(s), rest))
    ensures u == Net(s) + rest
  {
    ParseNetCanonical(u, s, rest);
  }

  /** A tag character, a field, then the rest: the tag is first and the field starts the rest. */
  lemma TagSplit(c: char, f: string, rest: string)
    ensures var t := [c] + f + rest; |t| > 0 && t[0] == c && t[1..] == f + rest
  {
    assert [c] + f + rest == [c] + (f + rest);
  }

  /** The encoding of a number or string `userId` is its tag, then its field. */
  lemma EncodeTagged(v: Scalar, rest: string)
    requires v.JNum? || v.JStr?
    ensures var t := EncodeScalar(v) + rest;
      |t| > 0 && t[0] == (if v.JNum? then 'n' else 's')
      && t[1..] == (if v.JNum? then Net(IntToString(v.n)) else Net(v.s)) + rest
  {
    var f := if v.JNum? then Net(IntToString(v.n)) else Net(v.s);
    var c := if v.JNum? then 'n' else 's';
    assert EncodeScalar(v) == [c] + f;
    TagSplit(c, f, rest);
  }

  /** Decoding after the tag of a number or string `userId`. */
  lemma DecodeTagged(t: string)
    requires |t| > 0 && (t[0] == 'n' || t[0] == 's')
    ensures DecodeScalar(t) == if t[0] == 'n' then DecodeNumField(t[1..]) else DecodeStrField(t[1..])
  {
  }

  lemma DecodeNumRoundTrip(n: int, rest: string)
    ensures DecodeScalar(EncodeScalar(JNum(n)) + rest) == Some((JNum(n), rest))
  {
    EncodeTagged(JNum(n), rest);
    DecodeTagged(EncodeScalar(JNum(n)) + rest);
    DecodeNumFieldRoundTrip(n, rest);
  }

  lemma DecodeStrRoundTrip(s: string, rest: string)
    ensures DecodeScalar(EncodeScalar(JStr(s)) + rest) == Some((JStr(s), rest))
  {
    EncodeTagged(JStr(s), rest);
    DecodeTagged(EncodeScalar(JStr(s)) + rest);
    DecodeStrFieldRoundTrip(s, rest);
  }

  lemma DecodeScalarRoundTrip(v: Scalar, rest: string)
    ensures DecodeScalar(EncodeScalar(v) + rest) == Some((v, rest))
  {
    if v.JNum? {
      DecodeNumRoundTrip(v.n, rest);
    } else if v.JStr? {
      DecodeStrRoundTrip(v.s, rest);
    } else {
      assert (EncodeScalar(v) + rest)[1..] == rest;
    }
  }

  lemma DecodeNumCanonical(t: string, n: int, rest: string)
    requires |t| > 0 && t[0] == 'n'
    requires DecodeScalar(t) == Some((JNum(n), rest))
    ensures t == EncodeScalar(JNum(n)) + rest
  {
    DecodeTagged(t);
    DecodeNumFieldCanonical(t[1..], n, rest);
    EncodeTagged(JNum(n), rest);
    assert t == [t[0]] + t[1..];
  }

  lemma DecodeStrCanonical(t: string, s: string, rest: string)
    requires |t| > 0 && t[0] == 's'
    requires DecodeScalar(t) == Some((JStr(s), rest))
    ensures t == EncodeScalar(JStr(s)) + rest
  {
    DecodeTagged(t);
    DecodeStrFieldCanonical(t[1..], s, rest);
    EncodeTagged(JStr(s), rest);
    assert t == [t[0]] + t[1..];
  }

  lemma DecodeScalarCanonical(t: string, v: Scalar, rest: string)
    requires DecodeScalar(t) == Some((v, rest))
    ensures t == EncodeScalar(v) + rest
  {
    if t[0] == 'n' {
      DecodeNumCanonical(t, v.n, rest);
    } else if t[0] == 's' {
      DecodeStrCanonical(t, v.s, rest);
    } else {
      assert t == [t[0]] + t[1..];
    }
  }

  /** The two time fields after the `userId`. */
  function EncodeTimes(iat: nat, exp: nat): string {
    Net(NatToString(iat)) + Net(NatToString(exp))
  }

  function EncodeClaims(c: Claims): string {
    EncodeScalar(c.payload.userId) + EncodeTimes(c.iat, c.exp)
  }

  /** Reads the two time fields; anything left over makes the body malformed. */
  function DecodeTimes(r1: string): Option<(nat, nat)> {
    match ParseNet(r1)
    case None => None
    case Some((a, r2)) =>
      match ParseNet(r2)
      case None => None
      case Some((e, r3)) =>
        match (ParseNat(a), ParseNat(e))
        case (Some(iat), Some(exp)) => if r3 == "" then Some((iat, exp)) else None
        case _ => None
  }

  function DecodeClaims(b: string): Option<Claims> {
    match DecodeScalar(b)
    case None => None
    case Some((u, r1)) =>
      match DecodeTimes(r1)
      case None => None
      case Some((iat, exp)) => Some(Claims(Payload(u), iat, exp))
  }

  lemma DecodeTimesRoundTrip(iat: nat, exp: nat)
    ensures DecodeTimes(EncodeTimes(iat, exp)) == Some((iat, exp))
  {
    var ia, ex := NatToString(iat), NatToString(exp);
    ParseNetRoundTrip(ia, Net(ex));
    assert Net(ex) == Net(ex) + "";
    ParseNetRoundTrip(ex, "");
    ParseNatRoundTrip(iat);
    ParseNatRoundTrip(exp);
  }

  lemma DecodeTimesCanonical(r1: string, iat: nat, exp: nat)
    requires DecodeTimes(r1) == Some((iat, exp))
    ensures r1 == EncodeTimes(iat, exp)
  {
    var (a, r2) := ParseNet(r1).value;
    var (e, r3) := ParseNet(r2).value;
    ParseNetCanonical(r1, a, r2);
    ParseNetCanonical(r2, e, r3);
    ParseNatCanonical(a, iat);
    ParseNatCanonical(e, exp);
    assert r2 == Net(e);
  }

  lemma DecodeClaimsRoundTrip(c: Claims)
    ensures DecodeClaims(EncodeClaims(c)) == Some(c)
  {
    DecodeScalarRoundTrip(c.payload.userId, EncodeTimes(c.iat, c.exp));
    DecodeTimesRoundTrip(c.iat, c.exp);
  }

  lemma DecodeClaimsCanonical(b: string, c: Claims)
    requires DecodeClaims(b) == Some(c)
    ensures EncodeClaims(c) == b
  {
    var (u, r1) := DecodeScalar(b).value;
    DecodeScalarCanonical(b, u, r1);
    DecodeTimesCanonical(r1, c.iat, c.exp);
  }

  /** The signature of a body under a secret (the HMAC of HS256). */
  function Mac(secret: string, body: string): string {
    Net(secret) + body
  }

  /** Different secrets never sign a body alike. */
  lemma MacSeparatesSecrets(s1: string, s2: string, body: string)
    requires Mac(s1, body) == Mac(s2, body)
    ensures s1 == s2
  {
    ParseNetRoundTrip(s1, body);
    ParseNetRoundTrip(s2, body);
  }

  /** The signed form of claims `c` under `secret`: the body field, then the tag. */
  function Signed(c: Claims, secret: string): string {
    Net(EncodeClaims(c)) + Mac(secret, EncodeClaims(c))
  }

  /** The token carrying claims `c`, signed with `secret`. */
  function Encode(c: Claims, secret: string): (token: string)
    ensures CookieSafe(token) && token != ""
  {
    Armor(Signed(c, secret))
  }

  /** What `verify` accepts is an encoding: its spelling, field, tag and body
      are each the only ones that read back as they do. */
  lemma VerifiedIsEncoding(token: string, signed: string, body: string, secret: string, c: Claims)
    requires Unarmor(token) == Some(signed)
    requires ParseNet(signed) == Some((body, Mac(secret, body)))
    requires DecodeClaims(body) == Some(c)
    ensures token == Encode(c, secret)
  {
    ArmorCanonical(token, signed);
    ParseNetCanonical(signed, body, Mac(secret, body));
    DecodeClaimsCanonical(body, c);
  }

  /** `verify(token, secret)` at time `now`: the decoded claims, or `None` for
      whatever the library throws on (no secret, a malformed token, a bad
      signature, `now >= exp`). Whatever it accepts is an unexpired encoding
      under this secret. */
  function Verify(token: string, secret: string, now: nat): (r: Option<Claims>)
    ensures r.Some? ==> secret != "" && token == Encode(r.value, secret) && now < r.value.exp
  {
    if secret == "" then None
    else
      match Unarmor(token)
      case None => None
      case Some(signed) =>
        match ParseNet(signed)
        case None => None
        case Some((body, sig)) =>
          if sig != Mac(secret, body) then None
          else
            match DecodeClaims(body)
            case None => None
            case Some(c) =>
              if now < c.exp then
                VerifiedIsEncoding(token, signed, body, secret, c);
                Some(c)
              else None
  }

  /** An encoding verifies under its own secret to its claims until `exp`. */
  lemma EncodeVerifies(c: Claims, secret: string, now: nat)
    requires secret != ""
    ensures Verify(Encode(c, secret), secret, now) == if now < c.exp then Some(c) else None
  {
    var b := EncodeClaims(c);
    ArmorRoundTrip(Signed(c, secret));
    ParseNetRoundTrip(b, Mac(secret, b));
    DecodeClaimsRoundTrip(c);
  }

  /** The verifier accepts exactly the encodings, under its own non-empty secret,
      of claims whose expiry lies after `now`, and returns those claims. */
  lemma VerifyExactly(token: string, secret: string, now: nat, c: Claims)
    ensures Verify(token, secret, now) == Some(c)
        <==> secret != "" && token == Encode(c, secret) && now < c.exp
  {
    if secret != "" && token == Encode(c, secret) {
      EncodeVerifies(c, secret, now);
    }
  }

  /** Distinct claims give distinct tokens. */
  lemma EncodeInjective(c1: Claims, c2: Claims, secret: string)
    requires Encode(c1, secret) == Encode(c2, secret)
    ensures c1 == c2
  {
    var b1, b2 := EncodeClaims(c1), EncodeClaims(c2);
    ArmorRoundTrip(Signed(c1, secret));
    ArmorRoundTrip(Signed(c2, secret));
    ParseNetRoundTrip(b1, Mac(secret, b1));
    ParseNetRoundTrip(b2, Mac(secret, b2));
    DecodeClaimsRoundTrip(c1);
    DecodeClaimsRoundTrip(c2);
  }

  /** `sign(payload, secret, { expiresIn: '1d' })` at time `iat`: the library
      adds `iat` and sets `exp` one day later; it throws on an empty secret.
      The token is cookie-safe and verifies at once to those claims. */
  function Sign(payload: Payload, secret: string, iat: nat): (token: string)
    requires secret != ""
    ensures CookieSafe(token)
    ensures Verify(token, secret, iat) == Some(Claims(payload, iat, iat + Day))
  {
    EncodeVerifies(Claims(payload, iat, iat + Day), secret, iat);
    Encode(Claims(payload, iat, iat + Day), secret)
  }

  /** Round trip: a freshly signed token verifies to its payload, `iat` and
      `exp = iat + 1 day` while it is less than a day old, and not afterwards. */
  lemma SignVerify(payload: Payload, secret: string, iat: nat, now: nat)
    requires secret != ""
    ensures Verify(Sign(payload, secret, iat), secret, now)
         == if now < iat + Day then Some(Claims(payload, iat, iat + Day)) else None
  {
    EncodeVerifies(Claims(payload, iat, iat + Day), secret, now);
  }

  /** A token signed with one secret never verifies under another. */
  lemma WrongSecretRejected(payload: Payload, s1: string, s2: string, iat: nat, now: nat)
    requires s1 != "" && s1 != s2
    ensures Verify(Sign(payload, s1, iat), s2, now) == None
  {
    var token := Sign(payload, s1, iat);
    if Verify(token, s2, now).Some? {
      var c := Verify(token, s2, now).value;
      var c1 := Claims(payload, iat, iat + Day);
      ArmorRoundTrip(Signed(c, s2));
      ArmorRoundTrip(Signed(c1, s1));
      ParseNetRoundTrip(EncodeClaims(c1), Mac(s1, EncodeClaims(c1)));
      ParseNetRoundTrip(EncodeClaims(c), Mac(s2, EncodeClaims(c)));
      MacSeparatesSecrets(s1, s2, EncodeClaims(c));
    }
  }
}
