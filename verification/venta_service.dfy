/**
 * services/ventaService.js: sale reads join the card and the seller (required)
 * and the buyer (optional); writes go through the database's constraints.
 */
module VentaService {
  import opened Wrappers
  import Store
  import opened CartaModel
  import opened VentaModel
  import opened UsuarioModel
  import opened Database

  /** A sale as the reads return it, with its associated rows loaded. */
  datatype VentaView = VentaView(venta: Venta, carta: Carta, vendedor: Usuario, comprador: Option<Usuario>)

  /**
   * The `include` of getAllVentas and getVentaById: an inner join on the card and
   * on the seller and a left join on the buyer. A soft-deleted associate does not
   * join, so a sale whose card or seller is deleted reads as absent, and one whose
   * buyer is deleted reads with no buyer.
   */
  function Join(db: Db, v: Venta): (r: Option<VentaView>)
    ensures r.Some? <==> Store.Live(db.cartas, v.idCarta) && Store.Live(db.usuarios, v.vendedor)
    ensures r.Some? ==>
      && r.value.venta == v
      && r.value.carta == db.cartas.rows[v.idCarta].rec
      && r.value.vendedor == db.usuarios.rows[v.vendedor].rec
      && (r.value.comprador.Some? <==> v.comprador.Some? && Store.Live(db.usuarios, v.comprador.value))
      && (r.value.comprador.Some? ==> r.value.comprador.value == db.usuarios.rows[v.comprador.value].rec)
  {
    if Store.Live(db.cartas, v.idCarta) && Store.Live(db.usuarios, v.vendedor) then
      var buyer := if v.comprador.Some? then Store.Find(db.usuarios, v.comprador.value) else None;
      Some(VentaView(v, db.cartas.rows[v.idCarta].rec, db.usuarios.rows[v.vendedor].rec, buyer))
    else
      None
  }

  /** getAllVentas: every live sale whose card and seller join, buyer or not. */
  function GetAllVentas(db: Db): (r: map<int, VentaView>)
    ensures forall id :: id in r <==> Store.Live(db.ventas, id) && Join(db, db.ventas.rows[id].rec).Some?
    ensures forall id :: id in r ==> id in db.ventas.rows && Join(db, db.ventas.rows[id].rec) == Some(r[id])
  {
    map id | id in db.ventas.rows && !db.ventas.rows[id].deleted && Join(db, db.ventas.rows[id].rec).Some?
      :: Join(db, db.ventas.rows[id].rec).value
  }

  /** getVentaById: the joined sale, or null when the sale is absent or does not join. */
  function GetVentaById(db: Db, id: int): (r: Option<VentaView>)
    ensures r.Some? <==> id in GetAllVentas(db)
    ensures r.Some? ==> r.value == GetAllVentas(db)[id]
  {
    match Store.Find(db.ventas, id)
    case None => None
    case Some(v) => Join(db, v)
  }

  /** createVenta: stores the sale unchanged under a fresh id, unless the database refuses it. */
  function CreateVenta(db: Db, v: Venta): (w: Write<int>)
    ensures w.Rejected? <==> !VentaAccepted(db, v)
    ensures w.Done? ==>
      && w.result.Some?
      && w.db == db.(ventas := w.db.ventas) && Extends(db, w.db)
      && Store.Visible(w.db.ventas) == Store.Visible(db.ventas)[w.result.value := v]
      && (Store.Valid(db.ventas) ==> Store.Valid(w.db.ventas) && w.result.value !in db.ventas.rows)
      && w.result.value == db.ventas.next
      && w.db.ventas.rows.Keys == db.ventas.rows.Keys + {w.result.value}
      && w.db.ventas.rows[w.result.value].rec == v
      && (forall k :: k in db.ventas.rows && k != w.result.value ==> k in w.db.ventas.rows && w.db.ventas.rows[k] == db.ventas.rows[k])
  {
    if VentaAccepted(db, v) then
      var (t, id) := Store.Insert(db.ventas, v);
      Done(Some(id), db.(ventas := t))
    else
      Rejected
  }

  /**
   * updateVenta: null and no change when the sale is absent or soft-deleted (no
   * join here), a refusal when the database rejects `v`, else the row replaced.
   */
  function UpdateVenta(db: Db, id: int, v: Venta): (w: Write<Venta>)
    ensures !Store.Live(db.ventas, id) ==> w == Done(None, db)
    ensures Store.Live(db.ventas, id) ==> (w.Rejected? <==> !VentaAccepted(db, v))
    ensures w.Done? && w.result.Some? ==>
      && Store.Live(db.ventas, id)
      && w.result.value == v
      && w.db == db.(ventas := w.db.ventas)
      && Store.Visible(w.db.ventas) == Store.Visible(db.ventas)[id := v]
      && w.db.ventas.rows.Keys == db.ventas.rows.Keys
      && w.db.ventas.rows[id].rec == v
      && (forall k :: k in db.ventas.rows && k != id ==> k in w.db.ventas.rows && w.db.ventas.rows[k] == db.ventas.rows[k])
      && (Store.Valid(db.ventas) ==> Store.Valid(w.db.ventas))
    ensures w.Done? ==> Extends(db, w.db)
  {
    if !Store.Live(db.ventas, id) then
      Done(None, db)
    else if !VentaAccepted(db, v) then
      Rejected
    else
      Done(Some(v), db.(ventas := Store.Put(db.ventas, id, v)))
  }

  /**
   * deleteVenta: null and no change when the sale is absent or soft-deleted, else
   * that sale alone soft-deleted. It does not join, so a sale whose card is gone
   * can still be deleted.
   */
  function DeleteVenta(db: Db, id: int): (w: Write<Venta>)
    ensures w.Done?
    ensures w.result.Some? <==> Store.Live(db.ventas, id)
    ensures w.result.None? ==> w.db == db
    ensures w.result.Some? ==>
      && w.result.value == db.ventas.rows[id].rec
      && w.db == db.(ventas := w.db.ventas)
      && Store.Visible(w.db.ventas) == Store.Visible(db.ventas) - {id}
      && (forall k :: k in db.ventas.rows ==> k in w.db.ventas.rows && w.db.ventas.rows[k].rec == db.ventas.rows[k].rec)
    ensures Extends(db, w.db) && w.db.ventas.rows.Keys == db.ventas.rows.Keys
    ensures Store.Valid(db.ventas) ==> Store.Valid(w.db.ventas)
  {
    if Store.Live(db.ventas, id) then
      Done(Some(db.ventas.rows[id].rec), db.(ventas := Store.SoftDelete(db.ventas, id)))
    else
      Done(None, db)
  }
}
