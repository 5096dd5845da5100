/**
 * The records exchanged with the hosted identity service and database: the
 * replies of `signInWithPassword`/`signUp`, and the `perfil` table's rows.
 */
module Store {
  import opened Values

  datatype User = User(id: string)

  /** `{ data: { user }, error }` as the identity service answers a sign-in or sign-up. */
  datatype AuthReply = AuthReply(error: Option<string>, user: Option<User>)

  /** A row of the `perfil` table. */
  datatype PerfilRow = PerfilRow(user_ref: string, nome: Json, telefone: Json, email: Json, avatar_url: Json)

  /** A body member as stored in a column: an absent member is dropped by JSON
      serialisation, so the column receives null. */
  function Column(body: map<string, Json>, k: string): (v: Json)
    ensures k in body ==> v == body[k]
    ensures k !in body ==> v == JNull
  {
    if k in body then body[k] else JNull
  }

  /** `error?.message || fallback`: the message when there is a non-empty one. */
  function MessageOr(error: Option<string>, fallback: string): (m: string)
    ensures NonEmpty(error) ==> m == error.value
    ensures !NonEmpty(error) ==> m == fallback
  {
    if NonEmpty(error) then error.value else fallback
  }

  /** `{ success: false, message }`. */
  function FailureBody(message: string): Json {
    JObj(map["success" := JBool(false), "message" := JStr(message)])
  }
}
