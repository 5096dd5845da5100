/**
 * src/app/api/users/route.ts: `GET` lists the `perfil` rows, as the database
 * returns them ordered by `nome`, projected to `{ id, nome, email, avatar_url }`.
 */
module UsersRoute {
  import opened Values
  import opened Http
  import opened Store

  /** The database's answer to the `perfil` select. */
  datatype QueryReply = QueryFailed(message: string) | Rows(rows: seq<PerfilRow>)

  /** One listed user: `user_ref` becomes `id`, and `telefone` is not exposed. */
  function View(row: PerfilRow): Json {
    JObj(map["id" := JStr(row.user_ref), "nome" := row.nome, "email" := row.email, "avatar_url" := row.avatar_url])
  }

  /** `data.map(user => ({ ... }))`: one user per row, in order, each its row's view. */
  function Project(rows: seq<PerfilRow>): (users: seq<Json>)
    ensures |users| == |rows|
    ensures forall i :: 0 <= i < |rows| ==> users[i] == View(rows[i])
    decreases |rows|
  {
    if |rows| == 0 then [] else [View(rows[0])] + Project(rows[1..])
  }

  /** `GET()`: 200 when the query returned rows, 500 when it failed. */
  function Get(reply: QueryReply): (r: Response)
    ensures r.status == 200 <==> reply.Rows?
    ensures r.status != 200 ==> r.status == 500
  {
    match reply
    case QueryFailed(message) => JsonResponse(JObj(map["error" := JStr(message)]), 500)
    case Rows(rows) => JsonResponse(JObj(map["users" := JArr(Project(rows))]), 200)
  }

  /** The projection distributes over concatenation. */
  lemma {:induction false} ProjectAppend(a: seq<PerfilRow>, b: seq<PerfilRow>)
    ensures Project(a + b) == Project(a) + Project(b)
    decreases |a|
  {
    if |a| == 0 {
      assert a + b == b;
    } else {
      assert (a + b)[0] == a[0];
      assert (a + b)[1..] == a[1..] + b;
      ProjectAppend(a[1..], b);
    }
  }

  /** Each listed user carries exactly `id`, `nome`, `email` and `avatar_url`,
      copied from its row; `telefone` is never listed. */
  lemma ViewFields(row: PerfilRow)
    ensures View(row).JObj? && View(row).fields.Keys == {"id", "nome", "email", "avatar_url"}
    ensures View(row).fields["id"] == JStr(row.user_ref)
    ensures View(row).fields["nome"] == row.nome && View(row).fields["email"] == row.email
    ensures View(row).fields["avatar_url"] == row.avatar_url
    ensures "telefone" !in View(row).fields
  {
  }

  /** A query error is 500 `{ error }`; otherwise 200 `{ users }` with one entry per row, in order. */
  lemma Outcomes(reply: QueryReply)
    ensures reply.QueryFailed? ==>
      Get(reply) == JsonResponse(JObj(map["error" := JStr(reply.message)]), 500)
    ensures reply.Rows? ==>
      && Get(reply).status == 200
      && Get(reply).body.JsonBody? && Get(reply).body.json.JObj?
      && Get(reply).body.json.fields.Keys == {"users"}
      && var users := Get(reply).body.json.fields["users"];
         users.JArr? && |users.items| == |reply.rows|
         && forall i :: 0 <= i < |reply.rows| ==> users.items[i] == View(reply.rows[i])
  {
  }
}
