/**
 * A paranoid Sequelize table: rows keyed by an auto-incremented integer id, each
 * with a deletion marker (`deletedAt`). Reads skip marked rows; nothing is ever
 * physically removed, so database constraints (foreign keys, unique indexes)
 * keep seeing every row.
 */
module Store {
  import opened Wrappers

  datatype Row<T> = Row(rec: T, deleted: bool)

  /** `next` is the value the id sequence hands out next. */
  datatype Table<T> = Table(rows: map<int, Row<T>>, next: int)

  /** Ids are positive and below the sequence's next value. */
  ghost predicate Valid<T>(t: Table<T>) {
    1 <= t.next && forall id :: id in t.rows ==> 1 <= id < t.next
  }

  function Empty<T>(): (t: Table<T>)
    ensures Valid(t)
    ensures Visible(t) == map[]
  {
    Table(map[], 1)
  }

  /** The row exists and is not soft-deleted. */
  predicate Live<T>(t: Table<T>, id: int) {
    id in t.rows && !t.rows[id].deleted
  }

  /** The table as `findAll` sees it: every row that is not soft-deleted. */
  function Visible<T>(t: Table<T>): (m: map<int, T>)
    ensures forall id :: id in m <==> Live(t, id)
    ensures forall id :: id in m ==> id in t.rows && m[id] == t.rows[id].rec
  {
    map id | id in t.rows && !t.rows[id].deleted :: t.rows[id].rec
  }

  /** `findOne({ where: { id } })`: the record, or null when it is absent or soft-deleted. */
  function Find<T>(t: Table<T>, id: int): (r: Option<T>)
    ensures r.Some? <==> id in Visible(t)
    ensures r.Some? ==> r.value == Visible(t)[id]
  {
    if Live(t, id) then Some(t.rows[id].rec) else None
  }

  /** `create`: stores `rec` under the next id of the sequence. */
  function Insert<T>(t: Table<T>, rec: T): (r: (Table<T>, int))
    ensures Valid(t) ==> Valid(r.0) && r.1 !in t.rows && r.1 >= 1
    ensures Visible(r.0) == Visible(t)[r.1 := rec]
    ensures r.0.rows.Keys == t.rows.Keys + {r.1}
    ensures r.1 == t.next && r.0.next > t.next
    ensures forall id :: id in t.rows && id != r.1 ==> r.0.rows[id] == t.rows[id]
  {
    (Table(t.rows[t.next := Row(rec, false)], t.next + 1), t.next)
  }

  /** `instance.update(rec)` on a row `findOne` returned. */
  function Put<T>(t: Table<T>, id: int, rec: T): (t': Table<T>)
    requires Live(t, id)
    ensures Valid(t) ==> Valid(t')
    ensures Visible(t') == Visible(t)[id := rec]
    ensures t'.rows.Keys == t.rows.Keys && t'.next == t.next
    ensures forall k :: k in t.rows && k != id ==> t'.rows[k] == t.rows[k]
  {
    t.(rows := t.rows[id := Row(rec, false)])
  }

  /** `instance.destroy()` on a paranoid model: the row is marked, not removed. */
  function SoftDelete<T>(t: Table<T>, id: int): (t': Table<T>)
    requires Live(t, id)
    ensures Valid(t) ==> Valid(t')
    ensures Visible(t') == Visible(t) - {id}
    ensures t'.rows.Keys == t.rows.Keys && t'.next == t.next
    ensures t'.rows[id].rec == t.rows[id].rec
    ensures forall k :: k in t.rows && k != id ==> t'.rows[k] == t.rows[k]
  {
    t.(rows := t.rows[id := Row(t.rows[id].rec, true)])
  }
}
