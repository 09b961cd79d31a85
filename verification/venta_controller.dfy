/** controllers/ventaController.js: request validation, 404s and the partial-update merge for sales. */
module VentaController {
  import opened Wrappers
  import opened Http
  import Store
  import opened VentaModel
  import opened Database
  import VentaService

  /** The five properties the handlers destructure from `req.body`; the price is in cents. */
  datatype VentaBody = VentaBody(
    idCarta: Field<int>,
    vendedor: Field<int>,
    comprador: Field<int>,
    precio: Field<int>,
    fecha: Field<int>)

  /** createVenta's guard: card, seller and price truthy, so a price of 0 is refused. */
  predicate CreateFieldsPresent(b: VentaBody) {
    TruthyNum(b.idCarta) && TruthyNum(b.vendedor) && TruthyNum(b.precio)
  }

  /** updateVenta's guard: card, seller or price truthy; the buyer and the date do not count. */
  predicate UpdateFieldsPresent(b: VentaBody) {
    TruthyNum(b.idCarta) || TruthyNum(b.vendedor) || TruthyNum(b.precio)
  }

  /**
   * The record createVenta hands to the service: the five body properties. Buyer
   * and date are taken independently; a missing buyer makes the sale a listing.
   */
  function NewVenta(b: VentaBody): (v: Venta)
    requires CreateFieldsPresent(b)
    ensures v.idCarta == b.idCarta.value && v.vendedor == b.vendedor.value && v.precio == b.precio.value
    ensures v.Listed() <==> !b.comprador.Given?
    ensures v.Sold() ==> v.comprador.value == b.comprador.value
    ensures v.fecha.Some? <==> b.fecha.Given?
    ensures v.fecha.Some? ==> v.fecha.value == b.fecha.value
  {
    Venta(b.idCarta.value, b.vendedor.value, Stored(b.comprador), b.precio.value, Stored(b.fecha))
  }

  /**
   * updateVenta's merge, `new || prior` on every column: a falsy or missing
   * property keeps the column, so a sold sale can never become a listing again
   * and a recorded date is never cleared.
   */
  function Merge(prior: Venta, b: VentaBody): (v: Venta)
    ensures prior.Sold() ==> v.Sold()
    ensures prior.fecha.Some? ==> v.fecha.Some?
    ensures v.idCarta == (if TruthyNum(b.idCarta) then b.idCarta.value else prior.idCarta)
    ensures v.vendedor == (if TruthyNum(b.vendedor) then b.vendedor.value else prior.vendedor)
    ensures v.comprador == (if TruthyNum(b.comprador) then Some(b.comprador.value) else prior.comprador)
    ensures v.precio == (if TruthyNum(b.precio) then b.precio.value else prior.precio)
    ensures v.fecha == (if TruthyNum(b.fecha) then Some(b.fecha.value) else prior.fecha)
    ensures TruthyNum(b.comprador) ==> v.Sold()
  {
    Venta(
      OrNum(b.idCarta, prior.idCarta),
      OrNum(b.vendedor, prior.vendedor),
      OrNullableNum(b.comprador, prior.comprador),
      OrNum(b.precio, prior.precio),
      OrNullableNum(b.fecha, prior.fecha))
  }

  /** getVentas: 200 with every live sale whose card and seller join; none is an empty list. */
  function GetVentas(db: Db): (r: Reply<map<int, VentaService.VentaView>>)
    ensures r.status == Ok
    ensures r.body == VentaService.GetAllVentas(db)
    ensures forall id :: id in r.body <==> Store.Live(db.ventas, id) && VentaService.Join(db, db.ventas.rows[id].rec).Some?
  {
    var ventas := VentaService.GetAllVentas(db);
    if |ventas| == 0 then Reply(Ok, map[]) else Reply(Ok, ventas)
  }

  /** getVentaById: 404 exactly when the sale is absent or its card or seller does not join. */
  function GetVentaById(db: Db, id: int): (r: Reply<Option<VentaService.VentaView>>)
    ensures r.status == NotFound <==>
      !(Store.Live(db.ventas, id)
        && Store.Live(db.cartas, db.ventas.rows[id].rec.idCarta)
        && Store.Live(db.usuarios, db.ventas.rows[id].rec.vendedor))
    ensures r.status != NotFound ==> r.status == Ok && r.body.Some? && r.body.value.venta == db.ventas.rows[id].rec
    ensures r.body == VentaService.GetVentaById(db, id)
  {
    match VentaService.GetVentaById(db, id)
    case None => Reply(NotFound, None)
    case Some(v) => Reply(Ok, Some(v))
  }

  /**
   * createVenta: 400 and no change unless card, seller and price are truthy; 500
   * and no change when the database refuses the sale; else 201 with it stored.
   */
  function CreateVenta(db: Db, b: VentaBody): (o: Outcome)
    ensures o.status in {Created, BadRequest, ServerError}
    ensures o.status == BadRequest <==> !CreateFieldsPresent(b)
    ensures o.status == ServerError <==> CreateFieldsPresent(b) && !VentaAccepted(db, NewVenta(b))
    ensures o.status != Created ==> o.db == db
    ensures o.status == Created ==>
      && o.db == db.(ventas := o.db.ventas)
      && Store.Visible(o.db.ventas) == Store.Visible(db.ventas)[db.ventas.next := NewVenta(b)]
  {
    if !CreateFieldsPresent(b) then
      Outcome(BadRequest, db)
    else
      match VentaService.CreateVenta(db, NewVenta(b))
      case Done(_, db') => Outcome(Created, db')
      case Rejected => Outcome(ServerError, db)
  }

  /**
   * updateVenta: 400 unless card, seller or price is truthy; 404 when the sale
   * does not read (its card or seller may be deleted); 500 when the database
   * refuses the merged sale; all three without change. Else 200 with the merge stored.
   */
  function UpdateVenta(db: Db, id: int, b: VentaBody): (o: Outcome)
    ensures o.status in {Ok, BadRequest, NotFound, ServerError}
    ensures o.status == BadRequest <==> !UpdateFieldsPresent(b)
    ensures o.status == NotFound <==> UpdateFieldsPresent(b) && VentaService.GetVentaById(db, id).None?
    ensures o.status == ServerError <==>
      UpdateFieldsPresent(b) && VentaService.GetVentaById(db, id).Some?
      && !VentaAccepted(db, Merge(db.ventas.rows[id].rec, b))
    ensures o.status != Ok ==> o.db == db
    ensures o.status == Ok ==>
      && o.db == db.(ventas := o.db.ventas)
      && Store.Visible(o.db.ventas) == Store.Visible(db.ventas)[id := Merge(db.ventas.rows[id].rec, b)]
  {
    if !UpdateFieldsPresent(b) then
      Outcome(BadRequest, db)
    else
      match VentaService.GetVentaById(db, id)
      case None => Outcome(NotFound, db)
      case Some(view) =>
        match VentaService.UpdateVenta(db, id, Merge(view.venta, b))
        case Done(_, db') => Outcome(Ok, db')
        case Rejected => Outcome(ServerError, db)
  }

  /** deleteVenta: 204 with the sale soft-deleted when it was live, else 404 and no change. */
  function DeleteVenta(db: Db, id: int): (o: Outcome)
    ensures o.status == NoContent <==> Store.Live(db.ventas, id)
    ensures o.status != NoContent ==> o.status == NotFound && o.db == db
    ensures o.status == NoContent ==>
      && o.db == db.(ventas := o.db.ventas)
      && Store.Visible(o.db.ventas) == Store.Visible(db.ventas) - {id}
  {
    match VentaService.DeleteVenta(db, id)
    case Done(Some(_), db') => Outcome(NoContent, db')
    case Done(None, _) => Outcome(NotFound, db)
    case Rejected => Outcome(ServerError, db)
  }

  /**
   * Recording a purchase with only the buyer and the date is refused: the update
   * must also resend the card, the seller or the price.
   */
  lemma PurchaseAloneRejected(db: Db, id: int, buyer: int, date: int)
    ensures UpdateVenta(db, id, VentaBody(Absent, Absent, Given(buyer), Absent, Given(date))) == Outcome(BadRequest, db)
  {
  }

  /** No update ever takes the buyer off a sale: every row that was sold is still sold. */
  lemma UpdateKeepsSold(db: Db, id: int, b: VentaBody, k: int)
    requires k in db.ventas.rows && db.ventas.rows[k].rec.Sold()
    ensures k in UpdateVenta(db, id, b).db.ventas.rows
    ensures UpdateVenta(db, id, b).db.ventas.rows[k].rec.Sold()
  {
    var o := UpdateVenta(db, id, b);
    if o.status == Ok {
      var view := VentaService.GetVentaById(db, id).value;
      assert view.venta == db.ventas.rows[id].rec;
      if k == id {
        assert o.db.ventas.rows[id].rec == Merge(db.ventas.rows[id].rec, b);
      }
    }
  }

  /**
   * Buying through the update: with a truthy buyer next to a truthy card, seller
   * or price, a sale that reads and a merge the database accepts, the update
   * answers 200 and the sale is stored sold to that buyer, a listing included.
   */
  lemma UpdateRecordsPurchase(db: Db, id: int, b: VentaBody)
    requires UpdateFieldsPresent(b) && TruthyNum(b.comprador)
    requires VentaService.GetVentaById(db, id).Some?
    requires VentaAccepted(db, Merge(db.ventas.rows[id].rec, b))
    ensures UpdateVenta(db, id, b).status == Ok
    ensures var after := Store.Visible(UpdateVenta(db, id, b).db.ventas);
      id in after && after[id].Sold() && after[id].comprador == Some(b.comprador.value)
  {
  }

  /**
   * Nothing ties the sale date to the buyer: whether a sale is created does not
   * depend on the date sent with it.
   */
  lemma CreateIgnoresDate(db: Db, b: VentaBody, date: Field<int>)
    ensures CreateVenta(db, b).status == CreateVenta(db, b.(fecha := date)).status
  {
  }

  /** A created sale reads back by its new id as the body described it, provided its card and seller are live. */
  lemma CreateThenGet(db: Db, b: VentaBody)
    requires CreateVenta(db, b).status == Created
    requires Store.Live(db.cartas, b.idCarta.value) && Store.Live(db.usuarios, b.vendedor.value)
    ensures GetVentaById(CreateVenta(db, b).db, db.ventas.next).status == Ok
    ensures GetVentaById(CreateVenta(db, b).db, db.ventas.next).body.value.venta == NewVenta(b)
  {
    var o := CreateVenta(db, b);
    assert db.ventas.next in Store.Visible(o.db.ventas);
  }
}
