/** services/resennaService.js: review reads join the author (required); writes go through the constraints. */
module ResennaService {
  import opened Wrappers
  import Store
  import opened ResennaModel
  import opened UsuarioModel
  import opened Database

  /** A review as the reads return it, with its author loaded. */
  datatype ResennaView = ResennaView(resenna: Resenna, usuario: Usuario)

  /** The `include` of the reads: an inner join on the author, which must not be soft-deleted. */
  function Join(db: Db, r: Resenna): (v: Option<ResennaView>)
    ensures v.Some? <==> Store.Live(db.usuarios, r.idUsuario)
    ensures v.Some? ==> v.value == ResennaView(r, db.usuarios.rows[r.idUsuario].rec)
  {
    match Store.Find(db.usuarios, r.idUsuario)
    case None => None
    case Some(u) => Some(ResennaView(r, u))
  }

  /** getAllResennas: every live review whose author is live. */
  function GetAllResennas(db: Db): (m: map<int, ResennaView>)
    ensures forall id :: id in m <==>
      Store.Live(db.resennas, id) && Store.Live(db.usuarios, db.resennas.rows[id].rec.idUsuario)
    ensures forall id :: id in m ==> id in db.resennas.rows && m[id].resenna == db.resennas.rows[id].rec
    ensures forall id :: id in m ==> Join(db, db.resennas.rows[id].rec) == Some(m[id])
    ensures forall id :: id in m ==>
      && db.resennas.rows[id].rec.idUsuario in db.usuarios.rows
      && m[id].usuario == db.usuarios.rows[db.resennas.rows[id].rec.idUsuario].rec
  {
    map id | id in db.resennas.rows && !db.resennas.rows[id].deleted && Join(db, db.resennas.rows[id].rec).Some?
      :: Join(db, db.resennas.rows[id].rec).value
  }

  /** getResennaById: the joined review, or null when the review or its author is absent. */
  function GetResennaById(db: Db, id: int): (v: Option<ResennaView>)
    ensures v.Some? <==> id in GetAllResennas(db)
    ensures v.Some? ==> v.value == GetAllResennas(db)[id]
  {
    match Store.Find(db.resennas, id)
    case None => None
    case Some(r) => Join(db, r)
  }

  /** createResenna: stores the review unchanged under a fresh id, unless the database refuses it. */
  function CreateResenna(db: Db, r: Resenna): (w: Write<int>)
    ensures w.Rejected? <==> !ResennaAccepted(db, r)
    ensures w.Done? ==>
      && w.result.Some?
      && w.db == db.(resennas := w.db.resennas) && Extends(db, w.db)
      && Store.Visible(w.db.resennas) == Store.Visible(db.resennas)[w.result.value := r]
      && (Store.Valid(db.resennas) ==> Store.Valid(w.db.resennas) && w.result.value !in db.resennas.rows)
      && w.result.value == db.resennas.next
      && w.db.resennas.rows.Keys == db.resennas.rows.Keys + {w.result.value}
      && w.db.resennas.rows[w.result.value].rec == r
      && (forall k :: k in db.resennas.rows && k != w.result.value ==> k in w.db.resennas.rows && w.db.resennas.rows[k] == db.resennas.rows[k])
  {
    if ResennaAccepted(db, r) then
      var (t, id) := Store.Insert(db.resennas, r);
      Done(Some(id), db.(resennas := t))
    else
      Rejected
  }

  /** updateResenna: null and no change when the review is not found (no join), a refusal, or the row replaced. */
  function UpdateResenna(db: Db, id: int, r: Resenna): (w: Write<Resenna>)
    ensures !Store.Live(db.resennas, id) ==> w == Done(None, db)
    ensures Store.Live(db.resennas, id) ==> (w.Rejected? <==> !ResennaAccepted(db, r))
    ensures w.Done? && w.result.Some? ==>
      && Store.Live(db.resennas, id)
      && w.result.value == r
      && w.db == db.(resennas := w.db.resennas)
      && Store.Visible(w.db.resennas) == Store.Visible(db.resennas)[id := r]
      && w.db.resennas.rows.Keys == db.resennas.rows.Keys
      && w.db.resennas.rows[id].rec == r
      && (forall k :: k in db.resennas.rows && k != id ==> k in w.db.resennas.rows && w.db.resennas.rows[k] == db.resennas.rows[k])
      && (Store.Valid(db.resennas) ==> Store.Valid(w.db.resennas))
    ensures w.Done? ==> Extends(db, w.db)
  {
    if !Store.Live(db.resennas, id) then
      Done(None, db)
    else if !ResennaAccepted(db, r) then
      Rejected
    else
      Done(Some(r), db.(resennas := Store.Put(db.resennas, id, r)))
  }

  /** deleteResenna: null and no change when the review is not found, else that review alone soft-deleted. */
  function DeleteResenna(db: Db, id: int): (w: Write<Resenna>)
    ensures w.Done?
    ensures w.result.Some? <==> Store.Live(db.resennas, id)
    ensures w.result.None? ==> w.db == db
    ensures w.result.Some? ==>
      && w.result.value == db.resennas.rows[id].rec
      && w.db == db.(resennas := w.db.resennas)
      && Store.Visible(w.db.resennas) == Store.Visible(db.resennas) - {id}
      && (forall k :: k in db.resennas.rows ==> k in w.db.resennas.rows && w.db.resennas.rows[k].rec == db.resennas.rows[k].rec)
    ensures Extends(db, w.db) && w.db.resennas.rows.Keys == db.resennas.rows.Keys
    ensures Store.Valid(db.resennas) ==> Store.Valid(w.db.resennas)
  {
    if Store.Live(db.resennas, id) then
      Done(Some(db.resennas.rows[id].rec), db.(resennas := Store.SoftDelete(db.resennas, id)))
    else
      Done(None, db)
  }
}
