/** services/cartaService.js: the card table's reads and writes. */
module CartaService {
  import opened Wrappers
  import Store
  import opened CartaModel
  import opened Database

  /** getAllCartas: every card that is not soft-deleted, keyed by id. */
  function GetAllCartas(db: Db): (r: map<int, Carta>)
    ensures forall id :: id in r <==> Store.Live(db.cartas, id)
    ensures forall id :: id in r ==> id in db.cartas.rows && r[id] == db.cartas.rows[id].rec
  {
    Store.Visible(db.cartas)
  }

  /** getCartaById: the card, or null when it is absent or soft-deleted. */
  function GetCartaById(db: Db, id: int): (r: Option<Carta>)
    ensures r.Some? <==> Store.Live(db.cartas, id)
    ensures r.Some? ==> r.value == db.cartas.rows[id].rec
  {
    Store.Find(db.cartas, id)
  }

  /** createCarta: stores the card unchanged under a fresh id; no constraint can refuse it. */
  function CreateCarta(db: Db, c: Carta): (w: Write<int>)
    ensures w.Done? && w.result.Some?
    ensures w.db == db.(cartas := w.db.cartas) && Extends(db, w.db)
    ensures Store.Visible(w.db.cartas) == Store.Visible(db.cartas)[w.result.value := c]
    ensures Store.Valid(db.cartas) ==> Store.Valid(w.db.cartas) && w.result.value !in db.cartas.rows
    ensures w.result.value == db.cartas.next
    ensures w.db.cartas.rows.Keys == db.cartas.rows.Keys + {w.result.value}
    ensures forall k :: k in db.cartas.rows && k != w.result.value ==> w.db.cartas.rows[k] == db.cartas.rows[k]
  {
    var (t, id) := Store.Insert(db.cartas, c);
    Done(Some(id), db.(cartas := t))
  }

  /** updateCarta: null and no change when the card is not found, else the card replaced by `c`. */
  function UpdateCarta(db: Db, id: int, c: Carta): (w: Write<Carta>)
    ensures w.Done?
    ensures w.result.Some? <==> Store.Live(db.cartas, id)
    ensures w.result.None? ==> w.db == db
    ensures w.result.Some? ==>
      && w.result.value == c
      && w.db == db.(cartas := w.db.cartas)
      && Store.Visible(w.db.cartas) == Store.Visible(db.cartas)[id := c]
      && w.db.cartas.rows[id].rec == c
      && (forall k :: k in db.cartas.rows && k != id ==> k in w.db.cartas.rows && w.db.cartas.rows[k] == db.cartas.rows[k])
    ensures Extends(db, w.db) && w.db.cartas.rows.Keys == db.cartas.rows.Keys
    ensures Store.Valid(db.cartas) ==> Store.Valid(w.db.cartas)
  {
    if Store.Live(db.cartas, id) then
      Done(Some(c), db.(cartas := Store.Put(db.cartas, id, c)))
    else
      Done(None, db)
  }

  /** deleteCarta: null and no change when the card is not found, else the card soft-deleted and returned. */
  function DeleteCarta(db: Db, id: int): (w: Write<Carta>)
    ensures w.Done?
    ensures w.result.Some? <==> Store.Live(db.cartas, id)
    ensures w.result.None? ==> w.db == db
    ensures w.result.Some? ==>
      && w.result.value == db.cartas.rows[id].rec
      && w.db == db.(cartas := w.db.cartas)
      && Store.Visible(w.db.cartas) == Store.Visible(db.cartas) - {id}
      && (forall k :: k in db.cartas.rows ==> k in w.db.cartas.rows && w.db.cartas.rows[k].rec == db.cartas.rows[k].rec)
    ensures Extends(db, w.db) && w.db.cartas.rows.Keys == db.cartas.rows.Keys
    ensures Store.Valid(db.cartas) ==> Store.Valid(w.db.cartas)
  {
    if Store.Live(db.cartas, id) then
      Done(Some(db.cartas.rows[id].rec), db.(cartas := Store.SoftDelete(db.cartas, id)))
    else
      Done(None, db)
  }
}
