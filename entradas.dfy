/**
 * src/app/api/entradas.ts: the pages-router `handler` that dispatches on the
 * HTTP method over the `entradas` table. The table is an in-memory `Table`
 * whose `id` column is generated. Whether each store call fails is a
 * parameter, and a failed call leaves the table as it was.
 */
module Entradas {
  import opened Values
  import opened Http
  import opened Store

  /** A table row: column name to value. */
  type Row = map<string, Json>

  /** The columns `POST` copies from the body. */
  const InsertColumns: set<string> := {"nome", "categoria", "preco", "data_venc", "data_pag", "user_ref"}

  const AllowedMethods: seq<string> := ["GET", "POST", "PUT", "DELETE"]

  predicate HasId(row: Row) {
    "id" in row && row["id"].JNum? && row["id"].n >= 0
  }

  /** `.eq('id', key)`: the row's id equals the key; an absent key matches nothing. */
  predicate Matches(row: Row, key: Option<Json>) {
    key.Some? && "id" in row && row["id"] == key.value
  }

  /** Every row has a numeric id below `nextId`, and no two rows share one. */
  predicate WellKeyed(rows: seq<Row>, nextId: nat) {
    && (forall i :: 0 <= i < |rows| ==> HasId(rows[i]) && rows[i]["id"].n < nextId)
    && (forall i, j :: 0 <= i < j < |rows| && HasId(rows[i]) && HasId(rows[j]) ==> rows[i]["id"] != rows[j]["id"])
  }

  /** The row `POST` inserts: the six selected body members (null where absent,
      since an absent member is dropped on the way to the store) and a new id. */
  function Inserted(body: map<string, Json>, id: nat): (row: Row)
    ensures row.Keys == InsertColumns + {"id"}
    ensures row["id"] == JNum(id)
    ensures forall k :: k in InsertColumns ==> row[k] == Column(body, k)
  {
    map k | k in InsertColumns + {"id"} :: if k == "id" then JNum(id) else Column(body, k)
  }

  /** `const { id, ...updateFields } = req.body`: the body without its `id`. */
  function UpdateFields(body: map<string, Json>): (fields: Row)
    ensures "id" !in fields
    ensures forall k :: k != "id" ==> (k in fields <==> k in body)
    ensures forall k :: k in fields ==> fields[k] == body[k]
  {
    body - {"id"}
  }

  /** `.update(fields).eq('id', key)`: matching rows take the new values of `fields`'
      columns, and every other row and column stays. */
  function UpdateWhere(rows: seq<Row>, key: Option<Json>, fields: Row): (r: seq<Row>)
    ensures |r| == |rows|
    ensures forall i :: 0 <= i < |rows| && !Matches(rows[i], key) ==> r[i] == rows[i]
    ensures forall i :: 0 <= i < |rows| && Matches(rows[i], key) ==>
      r[i].Keys == rows[i].Keys + fields.Keys
      && (forall k :: k in fields ==> r[i][k] == fields[k])
      && (forall k :: k in rows[i] && k !in fields ==> r[i][k] == rows[i][k])
    decreases |rows|
  {
    if |rows| == 0 then []
    else
      var head := if Matches(rows[0], key) then rows[0] + fields else rows[0];
      [head] + UpdateWhere(rows[1..], key, fields)
  }

  /** `.delete().eq('id', key)`: exactly the rows that do not match remain. */
  function DeleteWhere(rows: seq<Row>, key: Option<Json>): (r: seq<Row>)
    ensures |r| <= |rows|
    ensures forall x :: x in r <==> x in rows && !Matches(x, key)
    decreases |rows|
  {
    if |rows| == 0 then []
    else if Matches(rows[0], key) then DeleteWhere(rows[1..], key)
    else [rows[0]] + DeleteWhere(rows[1..], key)
  }

  /** The rows as `select('*')` returns them. */
  function Listing(rows: seq<Row>): (r: Json)
    ensures r.JArr? && |r.items| == |rows|
    ensures forall i :: 0 <= i < |rows| ==> r.items[i] == JObj(rows[i])
  {
    JArr(seq(|rows|, i requires 0 <= i < |rows| => JObj(rows[i])))
  }

  /** `res.status(500).json({ error: message })`. */
  function Failure(message: string): Response {
    ApiJsonResponse(JObj(map["error" := JStr(message)]), 500)
  }

  /** `res.setHeader('Allow', [...]); res.status(405).end(`Method ${method} Not Allowed`)`;
      a missing verb reads `undefined`. */
  function NotAllowed(verb: Option<string>): (r: Response)
    ensures r.status == 405
    ensures ValuesOf(r.headers, "allow") == [ListValue(["GET", "POST", "PUT", "DELETE"])]
    ensures r.body == TextBody("Method " + verb.GetOr("undefined") + " Not Allowed")
  {
    Response(405, SetHeader([], "allow", ListValue(AllowedMethods)), TextBody("Method " + verb.GetOr("undefined") + " Not Allowed"))
  }

  /** The `entradas` table. */
  class Table {
    var rows: seq<Row>
    var nextId: nat

    predicate Valid()
      reads this
    {
      WellKeyed(rows, nextId)
    }

    constructor()
      ensures rows == [] && nextId == 1
      ensures Valid()
    {
      rows := [];
      nextId := 1;
    }

    /** `handler(req, res)` for `req.method == verb` and `req.body == body`,
        where `fault` is the error the store call reports, if any. */
    method Handle(verb: Option<string>, body: map<string, Json>, fault: Option<string>) returns (r: Response)
      requires Valid()
      modifies this
      ensures Valid()
      ensures verb == Some("GET") ==>
        rows == old(rows) && nextId == old(nextId)
        && r == if fault.Some? then Failure(fault.value) else ApiJsonResponse(Listing(rows), 200)
      ensures verb == Some("POST") ==>
        (if fault.Some? then
           r == Failure(fault.value) && rows == old(rows) && nextId == old(nextId)
         else
           r == ApiJsonResponse(JNull, 201)
           && rows == old(rows) + [Inserted(body, old(nextId))] && nextId == old(nextId) + 1)
      ensures verb == Some("PUT") ==>
        nextId == old(nextId)
        && (if fault.Some? then
              r == Failure(fault.value) && rows == old(rows)
            else
              r == ApiJsonResponse(JNull, 200)
              && rows == UpdateWhere(old(rows), Get(body, "id"), UpdateFields(body)))
      ensures verb == Some("DELETE") ==>
        nextId == old(nextId)
        && (if fault.Some? then
              r == Failure(fault.value) && rows == old(rows)
            else
              r == Response(204, [], NoBody) && rows == DeleteWhere(old(rows), Get(body, "deleteId")))
      ensures verb !in {Some("GET"), Some("POST"), Some("PUT"), Some("DELETE")} ==>
        r == NotAllowed(verb) && rows == old(rows) && nextId == old(nextId)
    {
      if verb == Some("GET") {
        if fault.Some? {
          return Failure(fault.value);
        }
        return ApiJsonResponse(Listing(rows), 200);
      } else if verb == Some("POST") {
        if fault.Some? {
          return Failure(fault.value);
        }
        InsertKeepsKeys(rows, nextId, body);
        rows := rows + [Inserted(body, nextId)];
        nextId := nextId + 1;
        return ApiJsonResponse(JNull, 201);
      } else if verb == Some("PUT") {
        if fault.Some? {
          return Failure(fault.value);
        }
        UpdateKeepsKeys(rows, nextId, Get(body, "id"), UpdateFields(body));
        rows := UpdateWhere(rows, Get(body, "id"), UpdateFields(body));
        return ApiJsonResponse(JNull, 200);
      } else if verb == Some("DELETE") {
        if fault.Some? {
          return Failure(fault.value);
        }
        DeleteKeepsKeys(rows, nextId, Get(body, "deleteId"));
        rows := DeleteWhere(rows, Get(body, "deleteId"));
        return Response(204, [], NoBody);
      }
      r := NotAllowed(verb);
    }
  }

  /** An insert under the next id keeps ids present, bounded and distinct. */
  lemma InsertKeepsKeys(rows: seq<Row>, nextId: nat, body: map<string, Json>)
    requires WellKeyed(rows, nextId)
    ensures WellKeyed(rows + [Inserted(body, nextId)], nextId + 1)
  {
    var grown := rows + [Inserted(body, nextId)];
    forall i | 0 <= i < |grown| ensures HasId(grown[i]) && grown[i]["id"].n < nextId + 1 {
      if i < |rows| {
        assert grown[i] == rows[i];
      }
    }
    forall i, j | 0 <= i < j < |grown| && HasId(grown[i]) && HasId(grown[j])
      ensures grown[i]["id"] != grown[j]["id"]
    {
      assert grown[i] == rows[i];
      if j < |rows| {
        assert grown[j] == rows[j];
      }
    }
  }

  /** An update whose fields hold no `id` keeps every row's id. */
  lemma UpdateKeepsKeys(rows: seq<Row>, nextId: nat, key: Option<Json>, fields: Row)
    requires WellKeyed(rows, nextId)
    requires "id" !in fields
    ensures WellKeyed(UpdateWhere(rows, key, fields), nextId)
    ensures forall i :: 0 <= i < |rows| ==> UpdateWhere(rows, key, fields)[i]["id"] == rows[i]["id"]
  {
    var updated := UpdateWhere(rows, key, fields);
    assert forall i :: 0 <= i < |rows| ==> "id" in updated[i] && updated[i]["id"] == rows[i]["id"];
  }

  /** The rows a delete keeps come from the table, in order. */
  lemma {:induction false} DeleteKeepsKeys(rows: seq<Row>, nextId: nat, key: Option<Json>)
    requires WellKeyed(rows, nextId)
    ensures WellKeyed(DeleteWhere(rows, key), nextId)
    decreases |rows|
  {
    if |rows| > 0 {
      var tail := rows[1..];
      assert WellKeyed(tail, nextId) by {
        forall i | 0 <= i < |tail| ensures tail[i] == rows[i + 1] { }
      }
      DeleteKeepsKeys(tail, nextId, key);
      if !Matches(rows[0], key) {
        var rest := DeleteWhere(tail, key);
        var kept := [rows[0]] + rest;
        forall j | 0 <= j < |rest| ensures rest[j]["id"] != rows[0]["id"] {
          assert rest[j] in tail;
          var m :| 0 <= m < |tail| && tail[m] == rest[j];
          assert tail[m] == rows[m + 1];
        }
        forall i | 0 <= i < |kept| ensures HasId(kept[i]) && kept[i]["id"].n < nextId {
          if i > 0 {
            assert kept[i] == rest[i - 1];
          }
        }
        forall i, j | 0 <= i < j < |kept| && HasId(kept[i]) && HasId(kept[j])
          ensures kept[i]["id"] != kept[j]["id"]
        {
          assert kept[j] == rest[j - 1];
          if i > 0 {
            assert kept[i] == rest[i - 1];
          }
        }
      }
    }
  }

  /** Deleting distributes over concatenation, so the rows that stay keep their order. */
  lemma {:induction false} DeleteAppend(a: seq<Row>, b: seq<Row>, key: Option<Json>)
    ensures DeleteWhere(a + b, key) == DeleteWhere(a, key) + DeleteWhere(b, key)
    decreases |a|
  {
    if |a| == 0 {
      assert a + b == b;
    } else {
      assert (a + b)[0] == a[0];
      assert (a + b)[1..] == a[1..] + b;
      DeleteAppend(a[1..], b, key);
    }
  }

  /** A delete whose key matches no row leaves the table as it was. */
  lemma {:induction false} DeleteNoMatch(rows: seq<Row>, key: Option<Json>)
    requires forall i :: 0 <= i < |rows| ==> !Matches(rows[i], key)
    ensures DeleteWhere(rows, key) == rows
    decreases |rows|
  {
    if |rows| > 0 {
      DeleteNoMatch(rows[1..], key);
    }
  }

  /** Distinct ids: only the `i`-th row carries the `i`-th row's id. */
  lemma OnlyRowWithId(rows: seq<Row>, nextId: nat, i: nat, j: nat)
    requires WellKeyed(rows, nextId) && i < |rows| && j < |rows| && j != i
    ensures !Matches(rows[j], Some(rows[i]["id"]))
  {
    assert HasId(rows[i]) && HasId(rows[j]);
  }

  /** Deleting by a key that only `x` matches removes `x` and keeps the rest in order. */
  lemma DeleteOnlyMatch(before: seq<Row>, x: Row, after: seq<Row>, key: Option<Json>)
    requires forall j :: 0 <= j < |before| ==> !Matches(before[j], key)
    requires forall j :: 0 <= j < |after| ==> !Matches(after[j], key)
    requires Matches(x, key)
    ensures DeleteWhere(before + ([x] + after), key) == before + after
  {
    DeleteAppend(before, [x] + after, key);
    DeleteAppend([x], after, key);
    DeleteNoMatch(before, key);
    DeleteNoMatch(after, key);
    assert DeleteWhere([x], key) == [];
    assert [] + after == after;
  }

  /** Deleting by a key that only the `i`-th row matches removes exactly that row. */
  lemma DeleteAt(rows: seq<Row>, i: nat, key: Option<Json>)
    requires i < |rows| && Matches(rows[i], key)
    requires forall j :: 0 <= j < |rows| && j != i ==> !Matches(rows[j], key)
    ensures DeleteWhere(rows, key) == rows[..i] + rows[i + 1..]
  {
    var before, after := rows[..i], rows[i + 1..];
    assert rows == before + ([rows[i]] + after);
    forall j | 0 <= j < |before| ensures !Matches(before[j], key) {
      assert before[j] == rows[j];
    }
    forall j | 0 <= j < |after| ensures !Matches(after[j], key) {
      assert after[j] == rows[i + 1 + j];
    }
    DeleteOnlyMatch(before, rows[i], after, key);
  }

  /** Ids are distinct, so a delete by the id of a row removes that row and no other. */
  lemma DeleteOne(rows: seq<Row>, nextId: nat, i: nat)
    requires WellKeyed(rows, nextId) && i < |rows|
    ensures DeleteWhere(rows, Some(rows[i]["id"])) == rows[..i] + rows[i + 1..]
  {
    var key := Some(rows[i]["id"]);
    forall j | 0 <= j < |rows| && j != i ensures !Matches(rows[j], key) {
      OnlyRowWithId(rows, nextId, i, j);
    }
    assert HasId(rows[i]);
    DeleteAt(rows, i, key);
  }

  /** `PUT` and `DELETE` read different members: a body naming a row only by
      `id` deletes nothing. */
  lemma DeleteReadsDeleteId(rows: seq<Row>, body: map<string, Json>)
    requires "deleteId" !in body
    ensures DeleteWhere(rows, Get(body, "deleteId")) == rows
  {
    DeleteNoMatch(rows, Get(body, "deleteId"));
  }

  /** The inserted row holds exactly the six columns and the new id: other body
      members, including a client-chosen `id`, are ignored. */
  lemma InsertIgnoresOtherMembers(body: map<string, Json>, extra: string, v: Json, id: nat)
    requires extra !in InsertColumns
    ensures Inserted(body[extra := v], id) == Inserted(body, id)
  {
    var a := Inserted(body[extra := v], id);
    var b := Inserted(body, id);
    assert forall k :: k in InsertColumns ==> Column(body[extra := v], k) == Column(body, k);
    assert a.Keys == b.Keys;
  }
}
