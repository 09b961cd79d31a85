/**
 * The four tables together, the constraints the database and Sequelize's
 * validators enforce on writes, and the result shapes the services and
 * controllers share.
 */
module Database {
  import opened Wrappers
  import opened Http
  import Store
  import opened CartaModel
  import opened VentaModel
  import opened ResennaModel
  import opened UsuarioModel

  datatype Db = Db(
    cartas: Store.Table<Carta>,
    ventas: Store.Table<Venta>,
    resennas: Store.Table<Resenna>,
    usuarios: Store.Table<Usuario>)

  /**
   * What a service call did: `Rejected` when the database or a validator refused
   * the write (the service throws), otherwise the returned record, or null when
   * the id was not found, with the resulting state.
   */
  datatype Write<T> = Rejected | Done(result: Option<T>, db: Db)

  /** A mutating controller's answer: the status and the resulting state. */
  datatype Outcome = Outcome(status: Status, db: Db)

  /**
   * A sale the database accepts: the three foreign keys point at existing rows
   * (soft-deleted ones included, since a foreign key ignores `deletedAt`) and the
   * price is within the column's range and validator.
   */
  predicate VentaAccepted(db: Db, v: Venta) {
    && v.idCarta in db.cartas.rows
    && v.vendedor in db.usuarios.rows
    && (v.comprador.Some? ==> v.comprador.value in db.usuarios.rows)
    && PriceValid(v.precio)
  }

  /** A review the database accepts: rating in range, user reference to an existing row. */
  predicate ResennaAccepted(db: Db, r: Resenna) {
    RatingValid(r.valoracion) && r.idUsuario in db.usuarios.rows
  }

  /**
   * A user the database accepts under id `id`: no other row, soft-deleted or
   * not, has the same username, and the email passes the `isEmail` validator.
   */
  predicate UsuarioAccepted(db: Db, id: int, u: Usuario, isEmail: string -> bool) {
    && isEmail(u.email)
    && forall k :: k in db.usuarios.rows && k != id ==> db.usuarios.rows[k].rec.nombreUsuario != u.nombreUsuario
  }

  /** Every id sequence is sane. */
  ghost predicate TablesValid(db: Db) {
    Store.Valid(db.cartas) && Store.Valid(db.ventas) && Store.Valid(db.resennas) && Store.Valid(db.usuarios)
  }

  /** What the database guarantees of every row, soft-deleted or not. */
  ghost predicate Sound(db: Db, isEmail: string -> bool) {
    && TablesValid(db)
    && (forall id :: id in db.ventas.rows ==> VentaAccepted(db, db.ventas.rows[id].rec))
    && (forall id :: id in db.resennas.rows ==> ResennaAccepted(db, db.resennas.rows[id].rec))
    && (forall id :: id in db.usuarios.rows ==> UsuarioAccepted(db, id, db.usuarios.rows[id].rec, isEmail))
  }

  /** Two live users never share an email; the database alone does not enforce this. */
  ghost predicate EmailsDistinct(db: Db) {
    forall i, j ::
      Store.Live(db.usuarios, i) && Store.Live(db.usuarios, j) && i != j ==>
        db.usuarios.rows[i].rec.email != db.usuarios.rows[j].rec.email
  }

  /** What the controllers maintain on top of the database's guarantees. */
  ghost predicate Curated(db: Db) {
    && (forall id :: id in db.cartas.rows ==> db.cartas.rows[id].rec.Complete())
    && (forall id :: id in db.usuarios.rows ==> db.usuarios.rows[id].rec.Complete())
    && (forall id :: id in db.resennas.rows ==> db.resennas.rows[id].rec.descripcion != "")
    && EmailsDistinct(db)
  }

  ghost predicate Consistent(db: Db, isEmail: string -> bool) {
    Sound(db, isEmail) && Curated(db)
  }

  /** `db'` keeps every row of `db` (nothing is ever physically removed) and no sequence goes back. */
  ghost predicate Extends(db: Db, db': Db) {
    && db.cartas.rows.Keys <= db'.cartas.rows.Keys && db.cartas.next <= db'.cartas.next
    && db.ventas.rows.Keys <= db'.ventas.rows.Keys && db.ventas.next <= db'.ventas.next
    && db.resennas.rows.Keys <= db'.resennas.rows.Keys && db.resennas.next <= db'.resennas.next
    && db.usuarios.rows.Keys <= db'.usuarios.rows.Keys && db.usuarios.next <= db'.usuarios.next
  }

  function EmptyDb(): (db: Db)
    ensures forall isEmail :: Consistent(db, isEmail)
  {
    Db(Store.Empty(), Store.Empty(), Store.Empty(), Store.Empty())
  }
}
