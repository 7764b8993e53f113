/** A relational table with an AUTO_INCREMENT primary key, as the handlers see
    it: rows by id, and the id the next INSERT will be given. Both the `admin`
    and the `feature` tables have this shape. */
module Tables {

  datatype Table<R> = Table(rows: map<nat, R>, nextId: nat)

  /** AUTO_INCREMENT ids start at 1 and every stored id is below the counter. */
  predicate Valid<R>(t: Table<R>) {
    1 <= t.nextId && forall id :: id in t.rows ==> 1 <= id < t.nextId
  }

  /** A freshly created table. */
  function Empty<R>(): (t: Table<R>)
    ensures Valid(t) && |t.rows| == 0
  {
    Table(map[], 1)
  }

  /** INSERT: the row is stored under a new id (`insertId`), which is returned. */
  function Insert<R>(t: Table<R>, r: R): (out: (Table<R>, nat))
    ensures out.1 in out.0.rows && out.0.rows[out.1] == r
    ensures Valid(t) ==> Valid(out.0)
    ensures Valid(t) ==> out.1 !in t.rows && out.0.rows.Keys == t.rows.Keys + {out.1}
    ensures Valid(t) ==> forall id :: id in t.rows ==> out.0.rows[id] == t.rows[id]
    ensures Valid(t) ==> |out.0.rows| == |t.rows| + 1
    ensures forall id :: id in out.0.rows ==> id <= out.1 || id in t.rows
    ensures out.1 == t.nextId && out.0.nextId == t.nextId + 1
  {
    var id := t.nextId;
    assert t.rows[id := r].Keys == t.rows.Keys + {id};
    (Table(t.rows[id := r], id + 1), id)
  }

  /** UPDATE of an existing row: only that row changes. */
  function Replace<R>(t: Table<R>, id: nat, r: R): (t': Table<R>)
    requires id in t.rows
    ensures t'.rows.Keys == t.rows.Keys && t'.rows[id] == r
    ensures forall k :: k in t.rows && k != id ==> t'.rows[k] == t.rows[k]
    ensures t'.nextId == t.nextId
    ensures Valid(t) ==> Valid(t')
  {
    t.(rows := t.rows[id := r])
  }

  /** DELETE of one row: every other row stays. */
  function Remove<R>(t: Table<R>, id: nat): (t': Table<R>)
    ensures t'.rows.Keys == t.rows.Keys - {id}
    ensures forall k :: k in t'.rows ==> t'.rows[k] == t.rows[k]
    ensures t'.nextId == t.nextId
    ensures Valid(t) ==> Valid(t')
  {
    t.(rows := t.rows - {id})
  }

  /** None of the given calls is among the failing ones. */
  predicate NoneFail<K, V>(fails: map<K, V>, calls: set<K>) {
    forall c :: c in calls ==> c !in fails
  }
}
