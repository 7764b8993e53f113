/** CRUD handlers for the `feature` table, mounted at `/api/features`. A
    feature is a heading and an optional description under an AUTO_INCREMENT
    id. Each handler answers 500 `{ error: err.message }` when a query fails. */
module FeatureRoutes {
  import opened JsValues
  import opened Tables
  import opened NatSets

  /** A stored feature; its id is the key it is stored under. */
  datatype Feature = Feature(heading: string, description: Option<string>)

  type FeatureTable = Table<Feature>

  /** A row as `SELECT *` returns it. */
  datatype FeatureRow = FeatureRow(id: nat, heading: string, description: Option<string>)

  /** The body of a create or update request. */
  datatype FeatureInput = FeatureInput(heading: Option<string>, description: Option<string>)

  datatype Body = Row(row: FeatureRow) | Rows(rows: seq<FeatureRow>) | Message(message: string) | Error(error: string)

  datatype Response = Response(status: nat, body: Body)

  /** A response and the table it leaves behind. */
  datatype Outcome = Outcome(response: Response, table: FeatureTable)

  /** The queries the handlers run. */
  datatype Query = InsertFeature | SelectFeature | SelectFeatures | UpdateFeature | DeleteFeature

  /** The queries that fail for this request, with the text of their error. */
  type Failures = map<Query, string>


  const MsgHeadingRequired := "heading is required"
  const MsgNotFound := "Feature not found"
  const MsgDeleted := "Feature deleted"

  function RowOf(t: FeatureTable, id: nat): (r: FeatureRow)
    requires id in t.rows
  {
    FeatureRow(id, t.rows[id].heading, t.rows[id].description)
  }

  /** The stored form of a request body with a heading: `description ?? null`. */
  function FromInput(input: FeatureInput): (f: Feature)
    requires Truthy(input.heading)
    ensures f.heading == input.heading.value
    // a given description is kept as sent, the empty string included; an absent one is stored as null
    ensures f.description == input.description
  {
    Feature(input.heading.value, input.description)
  }

  /** POST /api/features. */
  function Create(t: FeatureTable, input: FeatureInput, fails: Failures): (o: Outcome)
    ensures o.response.status in {201, 400, 500}
    ensures o.response.status == 400 <==> !Truthy(input.heading)
    ensures !Truthy(input.heading) ==> o == Outcome(Response(400, Message(MsgHeadingRequired)), t)
    ensures o.response.status == 201 <==> Truthy(input.heading) && NoneFail(fails, {InsertFeature, SelectFeature})
    // one new row; the response is exactly that row as stored
    ensures o.response.status == 201 ==>
              o.table == Insert(t, FromInput(input)).0
              && o.response.body == Row(FeatureRow(t.nextId, input.heading.value, input.description))
              && o.response.body.row == RowOf(o.table, t.nextId)
    ensures o.table == t || (Truthy(input.heading) && o.table == Insert(t, FromInput(input)).0)
    // the row is stored exactly when the INSERT runs and succeeds
    ensures o.table != t <==> Truthy(input.heading) && InsertFeature !in fails
    ensures Truthy(input.heading) && InsertFeature in fails ==>
              o == Outcome(Response(500, Error(fails[InsertFeature])), t)
    ensures Truthy(input.heading) && InsertFeature !in fails && SelectFeature in fails ==>
              o == Outcome(Response(500, Error(fails[SelectFeature])), Insert(t, FromInput(input)).0)
    ensures o.response.status == 500 ==>
              exists q :: q in fails && o.response.body == Error(fails[q])
  {
    if !Truthy(input.heading) then Outcome(Response(400, Message(MsgHeadingRequired)), t)
    else if InsertFeature in fails then Outcome(Response(500, Error(fails[InsertFeature])), t)
    else
      var (t', id) := Insert(t, FromInput(input));
      // the row is inserted even when reading it back fails
      if SelectFeature in fails then Outcome(Response(500, Error(fails[SelectFeature])), t')
      else Outcome(Response(201, Row(RowOf(t', id))), t')
  }

  /** The rows stored under the given ids, in that order. */
  function RowsAt(t: FeatureTable, ids: seq<nat>): (rows: seq<FeatureRow>)
    requires forall i :: 0 <= i < |ids| ==> ids[i] in t.rows
    ensures |rows| == |ids|
    ensures forall i :: 0 <= i < |ids| ==> rows[i] == RowOf(t, ids[i])
  {
    if ids == [] then [] else [RowOf(t, ids[0])] + RowsAt(t, ids[1..])
  }

  /** The rows of the table, highest id first (`ORDER BY id DESC`): every
      stored row exactly once, each as stored. */
  function RowsDescending(t: FeatureTable): (rows: seq<FeatureRow>)
    ensures |rows| == |t.rows|
    ensures forall i, j :: 0 <= i < j < |rows| ==> rows[i].id > rows[j].id
    ensures forall i :: 0 <= i < |rows| ==> rows[i].id in t.rows && rows[i] == RowOf(t, rows[i].id)
    ensures forall id :: id in t.rows ==> RowOf(t, id) in rows
  {
    var ids := Descending(t.rows.Keys);
    RowsAtOrdered(t, ids);
    RowsAtCovers(t, ids);
    RowsAt(t, ids)
  }

  /** Rows read by strictly decreasing ids come out in that order. */
  lemma RowsAtOrdered(t: FeatureTable, ids: seq<nat>)
    requires forall i :: 0 <= i < |ids| ==> ids[i] in t.rows
    requires StrictlyDecreasing(ids)
    ensures forall i, j :: 0 <= i < j < |ids| ==> RowsAt(t, ids)[i].id > RowsAt(t, ids)[j].id
  {
    var rows := RowsAt(t, ids);
    assert forall i :: 0 <= i < |ids| ==> rows[i].id == ids[i];
  }

  /** Reading every stored id reads every stored row. */
  lemma RowsAtCovers(t: FeatureTable, ids: seq<nat>)
    requires forall i :: 0 <= i < |ids| ==> ids[i] in t.rows
    requires forall id :: id in t.rows ==> id in ids
    ensures forall id :: id in t.rows ==> RowOf(t, id) in RowsAt(t, ids)
  {
    var rows := RowsAt(t, ids);
    forall id | id in t.rows
      ensures RowOf(t, id) in rows
    {
      var i :| 0 <= i < |ids| && ids[i] == id;
      assert rows[i] == RowOf(t, id);
    }
  }

  /** GET /api/features. The table is only read. */
  function List(t: FeatureTable, fails: Failures): (r: Response)
    ensures SelectFeatures !in fails ==> r == Response(200, Rows(RowsDescending(t)))
    ensures SelectFeatures in fails ==> r == Response(500, Error(fails[SelectFeatures]))
  {
    if SelectFeatures in fails then Response(500, Error(fails[SelectFeatures]))
    else Response(200, Rows(RowsDescending(t)))
  }

  /** GET /api/features/:id. The table is only read. */
  function Get(t: FeatureTable, id: nat, fails: Failures): (r: Response)
    ensures r.status in {200, 404, 500}
    ensures SelectFeature !in fails && id !in t.rows ==> r == Response(404, Message(MsgNotFound))
    ensures r.status == 200 <==> SelectFeature !in fails && id in t.rows
    ensures r.status == 200 ==> r.body == Row(FeatureRow(id, t.rows[id].heading, t.rows[id].description))
    ensures r.status == 500 ==> r.body == Error(fails[SelectFeature])
    ensures SelectFeature in fails ==> r == Response(500, Error(fails[SelectFeature]))
  {
    if SelectFeature in fails then Response(500, Error(fails[SelectFeature]))
    else if id !in t.rows then Response(404, Message(MsgNotFound))
    else Response(200, Row(RowOf(t, id)))
  }

  /** PUT /api/features/:id. */
  function Update(t: FeatureTable, id: nat, input: FeatureInput, fails: Failures): (o: Outcome)
    ensures o.response.status in {200, 400, 404, 500}
    // the heading is checked before the store is consulted
    ensures !Truthy(input.heading) ==> o == Outcome(Response(400, Message(MsgHeadingRequired)), t)
    ensures o.response.status == 400 <==> !Truthy(input.heading)
    ensures Truthy(input.heading) && UpdateFeature !in fails && id !in t.rows ==>
              o == Outcome(Response(404, Message(MsgNotFound)), t)
    ensures o.response.status == 200 <==>
              Truthy(input.heading) && id in t.rows && NoneFail(fails, {UpdateFeature, SelectFeature})
    // only that row changes; heading and description are both replaced
    ensures o.table != t ==> Truthy(input.heading) && id in t.rows
    ensures Truthy(input.heading) && id in t.rows && UpdateFeature !in fails ==>
              o.table.rows.Keys == t.rows.Keys
              && o.table.rows[id] == Feature(input.heading.value, input.description)
              && forall k :: k in t.rows && k != id ==> o.table.rows[k] == t.rows[k]
    ensures o.response.status == 200 ==>
              o.response.body == Row(FeatureRow(id, input.heading.value, input.description))
    ensures o.response.status == 500 ==> exists q :: q in fails && o.response.body == Error(fails[q])
    // the AUTO_INCREMENT counter is never touched
    ensures o.table.nextId == t.nextId
    // a failing UPDATE changes nothing; a failing read-back comes after the row was rewritten
    ensures Truthy(input.heading) && UpdateFeature in fails ==>
              o == Outcome(Response(500, Error(fails[UpdateFeature])), t)
    ensures Truthy(input.heading) && UpdateFeature !in fails && id in t.rows && SelectFeature in fails ==>
              o == Outcome(Response(500, Error(fails[SelectFeature])), Replace(t, id, FromInput(input)))
  {
    if !Truthy(input.heading) then Outcome(Response(400, Message(MsgHeadingRequired)), t)
    else if UpdateFeature in fails then Outcome(Response(500, Error(fails[UpdateFeature])), t)
    else if id !in t.rows then Outcome(Response(404, Message(MsgNotFound)), t)
    else
      var t' := Replace(t, id, FromInput(input));
      // the row is updated even when reading it back fails
      if SelectFeature in fails then Outcome(Response(500, Error(fails[SelectFeature])), t')
      else Outcome(Response(200, Row(RowOf(t', id))), t')
  }

  /** DELETE /api/features/:id. */
  function Delete(t: FeatureTable, id: nat, fails: Failures): (o: Outcome)
    ensures o.response.status in {200, 404, 500}
    ensures DeleteFeature in fails ==> o == Outcome(Response(500, Error(fails[DeleteFeature])), t)
    ensures DeleteFeature !in fails && id !in t.rows ==> o == Outcome(Response(404, Message(MsgNotFound)), t)
    ensures o.response.status == 200 <==> DeleteFeature !in fails && id in t.rows
    // exactly that row goes, every other row stays as it was
    ensures o.response.status == 200 ==>
              o.response.body == Message(MsgDeleted)
              && o.table.rows.Keys == t.rows.Keys - {id}
              && forall k :: k in o.table.rows ==> o.table.rows[k] == t.rows[k]
    ensures o.response.status != 200 ==> o.table == t
    // the AUTO_INCREMENT counter is never touched, so a deleted id is not given out again
    ensures o.table.nextId == t.nextId
  {
    if DeleteFeature in fails then Outcome(Response(500, Error(fails[DeleteFeature])), t)
    else if id !in t.rows then Outcome(Response(404, Message(MsgNotFound)), t)
    else Outcome(Response(200, Message(MsgDeleted)), Remove(t, id))
  }

  /** Every handler keeps the table's AUTO_INCREMENT invariant. */
  lemma HandlersPreserveValid(t: FeatureTable, id: nat, input: FeatureInput, fails: Failures)
    requires Valid(t)
    ensures Valid(Create(t, input, fails).table)
    ensures Valid(Update(t, id, input, fails).table)
    ensures Valid(Delete(t, id, fails).table)
  {
  }

  /** A created feature can be fetched back by the id it was given, unchanged. */
  lemma GetAfterCreate(t: FeatureTable, input: FeatureInput, fails: Failures, getFails: Failures)
    requires Create(t, input, fails).response.status == 201
    requires SelectFeature !in getFails
    ensures Get(Create(t, input, fails).table, t.nextId, getFails)
            == Response(200, Create(t, input, fails).response.body)
  {
  }

  /** In a valid table the newest feature heads the list, ahead of the
      features listed before it. */
  lemma {:induction false} CreatedFeatureHeadsList(t: FeatureTable, input: FeatureInput, fails: Failures)
    requires Valid(t)
    requires Create(t, input, fails).response.status == 201
    ensures List(Create(t, input, fails).table, map[]).body.rows
            == [Create(t, input, fails).response.body.row] + RowsDescending(t)
  {
    InsertHeadsList(t, FromInput(input));
  }

  lemma InsertHeadsList(t: FeatureTable, f: Feature)
    requires Valid(t)
    ensures var (t', id) := Insert(t, f);
            RowsDescending(t') == [RowOf(t', id)] + RowsDescending(t)
  {
    var (t', id) := Insert(t, f);
    DescendingAddGreatest(t.rows.Keys, id);
    assert t'.rows.Keys == t.rows.Keys + {id};
    ListGainsHead(t, t', id);
  }

  lemma ListGainsHead(t: FeatureTable, t': FeatureTable, id: nat)
    requires id in t'.rows
    requires Descending(t'.rows.Keys) == [id] + Descending(t.rows.Keys)
    requires forall k :: k in t.rows ==> k in t'.rows && t'.rows[k] == t.rows[k]
    ensures RowsDescending(t') == [RowOf(t', id)] + RowsDescending(t)
  {
    var ids := Descending(t.rows.Keys);
    assert forall i :: 0 <= i < |ids| ==> ids[i] in t.rows;
    var ids' := [id] + ids;
    assert ids'[1..] == ids;
    assert forall i :: 0 <= i < |ids'| ==> ids'[i] in t'.rows;
    RowsAtFrame(t, t', ids);
    assert RowsAt(t', ids') == [RowOf(t', id)] + RowsAt(t', ids);
  }

  /** Reading ids whose rows two tables agree on gives the same rows. */
  lemma RowsAtFrame(t: FeatureTable, t': FeatureTable, ids: seq<nat>)
    requires forall i :: 0 <= i < |ids| ==> ids[i] in t.rows && ids[i] in t'.rows && t'.rows[ids[i]] == t.rows[ids[i]]
    ensures RowsAt(t', ids) == RowsAt(t, ids)
  {
  }

  /** An update is visible to the next read of that id, and to no other id. */
  lemma GetAfterUpdate(t: FeatureTable, id: nat, other: nat, input: FeatureInput, fails: Failures)
    requires Update(t, id, input, fails).response.status == 200
    requires other != id
    ensures Get(Update(t, id, input, fails).table, id, map[]) == Update(t, id, input, fails).response
    ensures Get(Update(t, id, input, fails).table, other, map[]) == Get(t, other, map[])
  {
  }

  /** Deleting a feature makes its id unknown and leaves every other id's answer as it was. */
  lemma GetAfterDelete(t: FeatureTable, id: nat, other: nat, fails: Failures)
    requires Delete(t, id, fails).response.status == 200
    requires other != id
    ensures Get(Delete(t, id, fails).table, id, map[]) == Response(404, Message(MsgNotFound))
    ensures Get(Delete(t, id, fails).table, other, map[]) == Get(t, other, map[])
  {
  }

  /** Deleting the feature just created restores the rows of a valid table. */
  lemma DeleteUndoesCreate(t: FeatureTable, input: FeatureInput, fails: Failures, deleteFails: Failures)
    requires Valid(t)
    requires Create(t, input, fails).response.status == 201
    requires DeleteFeature !in deleteFails
    ensures Delete(Create(t, input, fails).table, t.nextId, deleteFails).table.rows == t.rows
  {
    var t' := Create(t, input, fails).table;
    var t'' := Delete(t', t.nextId, deleteFails).table;
    assert t''.rows.Keys == t.rows.Keys;
  }
}
