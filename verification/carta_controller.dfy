/** controllers/cartaController.js: request validation, 404s and the partial-update merge for cards. */
module CartaController {
  import opened Wrappers
  import opened Http
  import Store
  import opened CartaModel
  import opened Database
  import CartaService

  /** The six properties the handlers destructure from `req.body`. */
  datatype CartaBody = CartaBody(
    nombre: Field<string>,
    tipo: Field<string>,
    descripcion: Field<string>,
    raza: Field<string>,
    arquetipo: Field<string>,
    imagen: Field<string>)

  /** createCarta's guard: every mandatory property is truthy. */
  predicate CreateFieldsPresent(b: CartaBody) {
    TruthyStr(b.nombre) && TruthyStr(b.tipo) && TruthyStr(b.raza) && TruthyStr(b.imagen)
  }

  /** updateCarta's guard: some mandatory property is truthy; `descripcion` or `arquetipo` alone does not count. */
  predicate UpdateFieldsPresent(b: CartaBody) {
    TruthyStr(b.nombre) || TruthyStr(b.tipo) || TruthyStr(b.raza) || TruthyStr(b.imagen)
  }

  /** The record createCarta hands to the service: exactly the six body properties. */
  function NewCarta(b: CartaBody): (c: Carta)
    requires CreateFieldsPresent(b)
    ensures c.Complete()
    ensures c.nombre == b.nombre.value && c.tipo == b.tipo.value
    ensures c.raza == b.raza.value && c.imagen == b.imagen.value
    ensures c.descripcion.Some? <==> b.descripcion.Given?
    ensures c.descripcion.Some? ==> c.descripcion.value == b.descripcion.value
    ensures c.arquetipo.Some? <==> b.arquetipo.Given?
    ensures c.arquetipo.Some? ==> c.arquetipo.value == b.arquetipo.value
  {
    Carta(b.nombre.value, b.tipo.value, Stored(b.descripcion), b.raza.value, Stored(b.arquetipo), b.imagen.value)
  }

  /**
   * updateCarta's merge, `new || prior` on every column: a truthy property
   * replaces the column, anything else keeps it, so no column is ever cleared.
   */
  function Merge(prior: Carta, b: CartaBody): (c: Carta)
    ensures prior.Complete() ==> c.Complete()
    ensures prior.descripcion.Some? ==> c.descripcion.Some?
    ensures prior.arquetipo.Some? ==> c.arquetipo.Some?
    ensures c.nombre == (if TruthyStr(b.nombre) then b.nombre.value else prior.nombre)
    ensures c.tipo == (if TruthyStr(b.tipo) then b.tipo.value else prior.tipo)
    ensures c.descripcion == (if TruthyStr(b.descripcion) then Some(b.descripcion.value) else prior.descripcion)
    ensures c.raza == (if TruthyStr(b.raza) then b.raza.value else prior.raza)
    ensures c.arquetipo == (if TruthyStr(b.arquetipo) then Some(b.arquetipo.value) else prior.arquetipo)
    ensures c.imagen == (if TruthyStr(b.imagen) then b.imagen.value else prior.imagen)
  {
    Carta(
      OrStr(b.nombre, prior.nombre),
      OrStr(b.tipo, prior.tipo),
      OrNullableStr(b.descripcion, prior.descripcion),
      OrStr(b.raza, prior.raza),
      OrNullableStr(b.arquetipo, prior.arquetipo),
      OrStr(b.imagen, prior.imagen))
  }

  /** getCartas: 200 with every live card; no cards is an empty list, not an error. */
  function GetCartas(db: Db): (r: Reply<map<int, Carta>>)
    ensures r.status == Ok
    ensures forall id :: id in r.body <==> Store.Live(db.cartas, id)
    ensures forall id :: id in r.body ==> id in db.cartas.rows && r.body[id] == db.cartas.rows[id].rec
  {
    var cartas := CartaService.GetAllCartas(db);
    if |cartas| == 0 then Reply(Ok, map[]) else Reply(Ok, cartas)
  }

  /** getCartaById: 404 exactly when the card is absent or soft-deleted. */
  function GetCartaById(db: Db, id: int): (r: Reply<Option<Carta>>)
    ensures r.status == NotFound <==> !Store.Live(db.cartas, id)
    ensures r.status != NotFound ==> r.status == Ok && r.body == Some(db.cartas.rows[id].rec)
    ensures r.status == NotFound ==> r.body.None?
  {
    match CartaService.GetCartaById(db, id)
    case None => Reply(NotFound, None)
    case Some(c) => Reply(Ok, Some(c))
  }

  /** createCarta: 400 and no change unless the mandatory properties are truthy, else 201 with the card stored. */
  function CreateCarta(db: Db, b: CartaBody): (o: Outcome)
    ensures o.status == BadRequest <==> !CreateFieldsPresent(b)
    ensures o.status == BadRequest ==> o.db == db
    ensures o.status != BadRequest ==>
      && o.status == Created
      && o.db == db.(cartas := o.db.cartas)
      && Store.Visible(o.db.cartas) == Store.Visible(db.cartas)[db.cartas.next := NewCarta(b)]
  {
    if !CreateFieldsPresent(b) then
      Outcome(BadRequest, db)
    else
      match CartaService.CreateCarta(db, NewCarta(b))
      case Done(_, db') => Outcome(Created, db')
      case Rejected => Outcome(ServerError, db)
  }

  /**
   * updateCarta: 400 when no mandatory property is truthy, 404 when the card is
   * not found (both without change), else 200 with the merged card stored.
   */
  function UpdateCarta(db: Db, id: int, b: CartaBody): (o: Outcome)
    ensures o.status in {Ok, BadRequest, NotFound}
    ensures o.status == BadRequest <==> !UpdateFieldsPresent(b)
    ensures o.status == NotFound <==> UpdateFieldsPresent(b) && !Store.Live(db.cartas, id)
    ensures o.status != Ok ==> o.db == db
    ensures o.status == Ok ==>
      && o.db == db.(cartas := o.db.cartas)
      && Store.Visible(o.db.cartas) == Store.Visible(db.cartas)[id := Merge(db.cartas.rows[id].rec, b)]
  {
    if !UpdateFieldsPresent(b) then
      Outcome(BadRequest, db)
    else
      match CartaService.GetCartaById(db, id)
      case None => Outcome(NotFound, db)
      case Some(prior) =>
        match CartaService.UpdateCarta(db, id, Merge(prior, b))
        case Done(_, db') => Outcome(Ok, db')
        case Rejected => Outcome(ServerError, db)
  }

  /** deleteCarta: 204 with the card soft-deleted when it was live, else 404 and no change. */
  function DeleteCarta(db: Db, id: int): (o: Outcome)
    ensures o.status == NoContent <==> Store.Live(db.cartas, id)
    ensures o.status != NoContent ==> o.status == NotFound && o.db == db
    ensures o.status == NoContent ==>
      && o.db == db.(cartas := o.db.cartas)
      && Store.Visible(o.db.cartas) == Store.Visible(db.cartas) - {id}
  {
    match CartaService.DeleteCarta(db, id)
    case Done(Some(_), db') => Outcome(NoContent, db')
    case Done(None, _) => Outcome(NotFound, db)
    case Rejected => Outcome(ServerError, db)
  }

  /** A created card reads back, by the id the sequence gave it, exactly as the body described it. */
  lemma CreateThenGet(db: Db, b: CartaBody)
    requires CreateFieldsPresent(b)
    ensures CreateCarta(db, b).status == Created
    ensures GetCartaById(CreateCarta(db, b).db, db.cartas.next) == Reply(Ok, Some(NewCarta(b)))
    ensures forall k :: k != db.cartas.next ==> GetCartaById(CreateCarta(db, b).db, k) == GetCartaById(db, k)
  {
    var o := CreateCarta(db, b);
    assert Store.Visible(o.db.cartas) == Store.Visible(db.cartas)[db.cartas.next := NewCarta(b)];
    assert db.cartas.next in Store.Visible(o.db.cartas);
    forall k | k != db.cartas.next
      ensures GetCartaById(o.db, k) == GetCartaById(db, k)
    {
      assert k in Store.Visible(o.db.cartas) <==> k in Store.Visible(db.cartas);
    }
  }

  /**
   * After a successful update the card reads back merged, every other card reads
   * as before, and a card that was complete stays complete.
   */
  lemma UpdateThenGet(db: Db, id: int, b: CartaBody)
    requires UpdateCarta(db, id, b).status == Ok
    ensures GetCartaById(UpdateCarta(db, id, b).db, id) == Reply(Ok, Some(Merge(db.cartas.rows[id].rec, b)))
    ensures forall k :: k != id ==> GetCartaById(UpdateCarta(db, id, b).db, k) == GetCartaById(db, k)
    ensures db.cartas.rows[id].rec.Complete() ==> GetCartaById(UpdateCarta(db, id, b).db, id).body.value.Complete()
  {
    var o := UpdateCarta(db, id, b);
    var m := Merge(db.cartas.rows[id].rec, b);
    assert Store.Visible(o.db.cartas) == Store.Visible(db.cartas)[id := m];
    assert id in Store.Visible(o.db.cartas);
    forall k | k != id
      ensures GetCartaById(o.db, k) == GetCartaById(db, k)
    {
      assert k in Store.Visible(o.db.cartas) <==> k in Store.Visible(db.cartas);
    }
  }

  /** A deleted card is gone for every read and for a second delete. */
  lemma DeleteThenGet(db: Db, id: int)
    requires DeleteCarta(db, id).status == NoContent
    ensures GetCartaById(DeleteCarta(db, id).db, id).status == NotFound
    ensures id !in GetCartas(DeleteCarta(db, id).db).body
    ensures DeleteCarta(DeleteCarta(db, id).db, id) == Outcome(NotFound, DeleteCarta(db, id).db)
  {
    var o := DeleteCarta(db, id);
    assert id !in Store.Visible(o.db.cartas);
  }
}
