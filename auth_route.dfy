/**
 * src/app/api/auth/route.ts: one `POST` that dispatches on the body's `type`.
 * `login` signs in and sets the cookie. `register` creates the account, then
 * inserts its `perfil` row, then sets the cookie. The two writes are not
 * undone when the second fails. The identity service and the database are an
 * in-memory `Backend`, and their replies are parameters.
 */
module AuthRoute {
  import opened Values
  import opened Http
  import opened Store
  import Jwt
  import AuthLib
  import LoginRoute

  const LoginFailed := "Login falhou"
  const SignUpFailed := "Cadastro falhou"
  const InvalidType := "Tipo de requisição inválido"

  /** The `login` branch, given the reply to `signInWithPassword({ email, password })`:
      200 exactly for a user without an error, 400 otherwise, and only 200 sets a cookie. */
  function Login(reply: AuthReply, env: AuthLib.Env, now: nat): (r: Response)
    ensures r.status == 200 || r.status == 400
    ensures r.status == 200 <==> reply.error.None? && reply.user.Some?
    ensures r.status != 200 ==> SetsNoCookie(r)
  {
    if reply.error.Some? || reply.user.None? then
      JsonSetsNoCookie(FailureBody(MessageOr(reply.error, LoginFailed)), 400);
      JsonResponse(FailureBody(MessageOr(reply.error, LoginFailed)), 400)
    else
      AuthLib.SetAuthCookie(AuthLib.CreateToken(Jwt.Payload(JStr(reply.user.value.id)), env, now), env)
  }

  /** The answer of the `register` branch, given the reply to `signUp` and the
      error, if any, of the `perfil` insert: 200 only when both succeed, and only
      200 sets a cookie. */
  function RegisterResponse(signUp: AuthReply, profileError: Option<string>, env: AuthLib.Env, now: nat): (r: Response)
    ensures r.status == 200 <==> signUp.error.None? && signUp.user.Some? && profileError.None?
    ensures r.status != 200 ==> SetsNoCookie(r)
  {
    if signUp.error.Some? || signUp.user.None? then
      JsonSetsNoCookie(FailureBody(MessageOr(signUp.error, SignUpFailed)), 400);
      JsonResponse(FailureBody(MessageOr(signUp.error, SignUpFailed)), 400)
    else if profileError.Some? then
      JsonSetsNoCookie(FailureBody(profileError.value), 500);
      JsonResponse(FailureBody(profileError.value), 500)
    else
      AuthLib.SetAuthCookie(AuthLib.CreateToken(Jwt.Payload(JStr(signUp.user.value.id)), env, now), env)
  }

  /** The `perfil` row inserted for a new account: its id and three body members. */
  function NewProfile(id: string, body: map<string, Json>): (row: PerfilRow)
    ensures row.user_ref == id
    ensures row.nome == Column(body, "nome") && row.telefone == Column(body, "telefone")
    ensures row.email == Column(body, "email")
    ensures row.avatar_url == JNull
  {
    PerfilRow(id, Column(body, "nome"), Column(body, "telefone"), Column(body, "email"), JNull)
  }

  /** The new row reads only `nome`, `telefone` and `email` from the body: bodies
      that agree on those three give the same row, whatever else they carry. */
  lemma ProfileIgnoresOtherMembers(id: string, b1: map<string, Json>, b2: map<string, Json>)
    requires forall k :: k in {"nome", "telefone", "email"} ==> Column(b1, k) == Column(b2, k)
    ensures NewProfile(id, b1) == NewProfile(id, b2)
    ensures NewProfile(id, b1).user_ref == id && NewProfile(id, b1).avatar_url == JNull
  {
    assert Column(b1, "nome") == Column(b2, "nome");
    assert Column(b1, "telefone") == Column(b2, "telefone");
    assert Column(b1, "email") == Column(b2, "email");
  }

  const InvalidTypeResponse := JsonResponse(FailureBody(InvalidType), 400)

  predicate AccountIn(accounts: seq<User>, id: string) {
    exists a :: 0 <= a < |accounts| && accounts[a].id == id
  }

  predicate ProfileIn(perfil: seq<PerfilRow>, id: string) {
    exists k :: 0 <= k < |perfil| && perfil[k].user_ref == id
  }

  /** Every `perfil` row refers to an account. */
  predicate Referenced(accounts: seq<User>, perfil: seq<PerfilRow>) {
    forall k :: 0 <= k < |perfil| ==> AccountIn(accounts, perfil[k].user_ref)
  }

  /** Under the invariant, an id without an account has no `perfil` row. */
  lemma NoProfileWithoutAccount(accounts: seq<User>, perfil: seq<PerfilRow>, id: string)
    requires Referenced(accounts, perfil)
    ensures !AccountIn(accounts, id) ==> !ProfileIn(perfil, id)
  {
    if ProfileIn(perfil, id) {
      var k :| 0 <= k < |perfil| && perfil[k].user_ref == id;
      assert AccountIn(accounts, perfil[k].user_ref);
    }
  }

  /** A new account keeps every row referenced, and its own row is referenced too. */
  lemma SignUpKeepsReferences(accounts: seq<User>, perfil: seq<PerfilRow>, user: User, row: PerfilRow)
    requires Referenced(accounts, perfil)
    requires row.user_ref == user.id
    ensures AccountIn(accounts + [user], user.id)
    ensures Referenced(accounts + [user], perfil)
    ensures Referenced(accounts + [user], perfil + [row])
  {
    var grown := accounts + [user];
    assert grown[|accounts|] == user;
    forall id | AccountIn(accounts, id) ensures AccountIn(grown, id) {
      var a :| 0 <= a < |accounts| && accounts[a].id == id;
      assert grown[a] == accounts[a];
    }
    forall k | 0 <= k < |perfil + [row]| ensures AccountIn(grown, (perfil + [row])[k].user_ref) {
      if k < |perfil| {
        assert (perfil + [row])[k] == perfil[k];
      }
    }
  }

  /** The identity service's accounts and the `perfil` table. */
  class Backend {
    var accounts: seq<User>
    var perfil: seq<PerfilRow>

    predicate HasAccount(id: string)
      reads this
    {
      AccountIn(accounts, id)
    }

    predicate HasProfile(id: string)
      reads this
    {
      ProfileIn(perfil, id)
    }

    /** Every `perfil` row refers to an existing account. */
    predicate Valid()
      reads this
    {
      Referenced(accounts, perfil)
    }

    constructor()
      ensures accounts == [] && perfil == []
      ensures Valid()
    {
      accounts := [];
      perfil := [];
    }

    /** `POST(request)` on `body` at `now`. The `login` branch consults only
        `signIn`, the `register` branch only `signUp` and `profileError`, and any
        other `type` neither. */
    method Post(body: map<string, Json>, signIn: AuthReply, signUp: AuthReply,
                profileError: Option<string>, env: AuthLib.Env, now: nat) returns (r: Response)
      requires Valid()
      modifies this
      ensures Valid()
      ensures Column(body, "type") == JStr("login") ==>
        r == Login(signIn, env, now) && accounts == old(accounts) && perfil == old(perfil)
      ensures Column(body, "type") == JStr("register") ==>
        && r == RegisterResponse(signUp, profileError, env, now)
        && (if signUp.error.Some? || signUp.user.None? then accounts == old(accounts)
            else accounts == old(accounts) + [signUp.user.value])
        && (if signUp.error.Some? || signUp.user.None? || profileError.Some? then perfil == old(perfil)
            else perfil == old(perfil) + [NewProfile(signUp.user.value.id, body)])
      ensures Column(body, "type") != JStr("login") && Column(body, "type") != JStr("register") ==>
        r == InvalidTypeResponse && accounts == old(accounts) && perfil == old(perfil)
    {
      var kind := Column(body, "type");
      if kind == JStr("login") {
        r := Login(signIn, env, now);
        return;
      }
      if kind == JStr("register") {
        if signUp.error.Some? || signUp.user.None? {
          r := JsonResponse(FailureBody(MessageOr(signUp.error, SignUpFailed)), 400);
          return;
        }
        var user := signUp.user.value;
        SignUpKeepsReferences(accounts, perfil, user, NewProfile(user.id, body));
        accounts := accounts + [user];
        if profileError.Some? {
          r := JsonResponse(FailureBody(profileError.value), 500);
          return;
        }
        perfil := perfil + [NewProfile(user.id, body)];
        r := AuthLib.SetAuthCookie(AuthLib.CreateToken(Jwt.Payload(JStr(user.id)), env, now), env);
        return;
      }
      r := InvalidTypeResponse;
    }

    /** A `perfil` failure after a successful sign-up leaves the new account
        without a profile (when it had none before): there is no rollback. */
    method RegisterOrphan(body: map<string, Json>, signIn: AuthReply, user: User,
                          message: string, env: AuthLib.Env, now: nat) returns (r: Response)
      requires Valid()
      requires Column(body, "type") == JStr("register")
      modifies this
      ensures Valid()
      ensures r == JsonResponse(FailureBody(message), 500) && SetsNoCookie(r)
      ensures accounts == old(accounts) + [user] && perfil == old(perfil)
      ensures HasAccount(user.id)
      ensures !old(HasProfile(user.id)) ==> !HasProfile(user.id)
    {
      SignUpKeepsReferences(accounts, perfil, user, NewProfile(user.id, body));
      r := Post(body, signIn, AuthReply(None, Some(user)), Some(message), env, now);
      NoCookieOnFailure(message, 500);
    }
  }

  /** The non-cookie answers carry only the JSON content type. */
  lemma NoCookieOnFailure(message: string, status: int)
    ensures SetsNoCookie(JsonResponse(FailureBody(message), status))
  {
    JsonSetsNoCookie(FailureBody(message), status);
  }

  /** Login: an error or a missing user gives 400 with the error's message,
      `'Login falhou'` when there is none, and no cookie; otherwise the cookie. */
  lemma LoginOutcomes(reply: AuthReply, env: AuthLib.Env, now: nat)
    ensures var r := Login(reply, env, now);
      && (reply.error.Some? || reply.user.None? ==>
            r.status == 400 && SetsNoCookie(r)
            && r.body == JsonBody(FailureBody(if NonEmpty(reply.error) then reply.error.value else LoginFailed)))
      && (reply.error.None? && reply.user.Some? ==>
            r == AuthLib.SetAuthCookie(AuthLib.CreateToken(Jwt.Payload(JStr(reply.user.value.id)), env, now), env)
            && r.status == 200 && !SetsNoCookie(r))
  {
    NoCookieOnFailure(MessageOr(reply.error, LoginFailed), 400);
  }

  /** Register: 400 with the sign-up message (or `'Cadastro falhou'`), 500 with the
      insert's message, or 200 with the cookie; only the last sets a cookie. */
  lemma RegisterOutcomes(signUp: AuthReply, profileError: Option<string>, env: AuthLib.Env, now: nat)
    ensures var r := RegisterResponse(signUp, profileError, env, now);
      && (r.status == 400 <==> signUp.error.Some? || signUp.user.None?)
      && (r.status == 400 ==>
            r.body == JsonBody(FailureBody(if NonEmpty(signUp.error) then signUp.error.value else SignUpFailed)))
      && (r.status == 500 <==> signUp.error.None? && signUp.user.Some? && profileError.Some?)
      && (r.status == 500 ==> r.body == JsonBody(FailureBody(profileError.value)))
      && (r.status == 200 <==> signUp.error.None? && signUp.user.Some? && profileError.None?)
      && (SetsNoCookie(r) <==> r.status != 200)
  {
    NoCookieOnFailure(MessageOr(signUp.error, SignUpFailed), 400);
    if profileError.Some? {
      NoCookieOnFailure(profileError.value, 500);
    }
  }

  /** A successful registration's cookie carries a token for the new account. */
  lemma RegisterIssuesUserToken(signUp: AuthReply, env: AuthLib.Env, now: nat, later: nat)
    requires signUp.error.None? && signUp.user.Some?
    ensures var c := AuthLib.TheCookie(RegisterResponse(signUp, None, env, now));
      AuthLib.VerifyToken(c.value, env, later)
      == if later < now + Jwt.Day
         then Some(Jwt.Claims(Jwt.Payload(JStr(signUp.user.value.id)), now, now + Jwt.Day))
         else None
  {
    AuthLib.TokenRoundTrip(Jwt.Payload(JStr(signUp.user.value.id)), env, now, later);
  }

  /** The two login handlers agree on a successful sign-in, and differ otherwise:
      a missing user is 400 here and 404 in the login-only route, and an error with
      an empty message reads `'Login falhou'` here and stays empty there. */
  lemma LoginHandlersCompared(reply: AuthReply, env: AuthLib.Env, now: nat)
    ensures reply.error.None? && reply.user.Some? ==> Login(reply, env, now) == LoginRoute.Post(reply, env, now)
    ensures reply.error.None? && reply.user.None? ==>
      Login(reply, env, now).status == 400 && LoginRoute.Post(reply, env, now).status == 404
    ensures reply.error == Some("") ==>
      Login(reply, env, now).body == JsonBody(FailureBody(LoginFailed))
      && LoginRoute.Post(reply, env, now).body == JsonBody(FailureBody(""))
  {
  }
}
