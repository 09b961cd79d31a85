/**
 * The application as a whole: every mutating route handed to its controller,
 * and what any sequence of such requests preserves.
 */
module Api {
  import opened Wrappers
  import opened Http
  import Store
  import opened CartaModel
  import opened VentaModel
  import opened ResennaModel
  import opened UsuarioModel
  import opened Database
  import VentaService
  import ResennaService
  import UsuarioService
  import CartaController
  import VentaController
  import ResennaController
  import UsuarioController
  import Invariants

  /** A request to one of the mutating routes, with its id parameter and parsed body. */
  datatype Request =
    | PostCarta(carta: CartaController.CartaBody)
    | PutCarta(id: int, carta: CartaController.CartaBody)
    | DeleteCarta(id: int)
    | PostVenta(venta: VentaController.VentaBody)
    | PutVenta(id: int, venta: VentaController.VentaBody)
    | DeleteVenta(id: int)
    | PostResenna(resenna: ResennaController.ResennaBody)
    | PutResenna(id: int, resenna: ResennaController.ResennaBody)
    | DeleteResenna(id: int)
    | PostUsuario(usuario: UsuarioController.UsuarioBody)
    | PutUsuario(id: int, usuario: UsuarioController.UsuarioBody)
    | DeleteUsuario(id: int)

  /**
   * The controller each route calls. No request removes a row or moves a
   * sequence back, and a refused request (400, 404, 500) leaves the state as it
   * was, except a review update, whose first write is already committed.
   */
  function Handle(db: Db, req: Request, isEmail: string -> bool): (o: Outcome)
    ensures Extends(db, o.db)
    ensures o.status in {BadRequest, NotFound, ServerError} && !req.PutResenna? ==> o.db == db
    ensures o.status == BadRequest ==> o.db == db
  {
    match req
    case PostCarta(b) => CartaController.CreateCarta(db, b)
    case PutCarta(id, b) => CartaController.UpdateCarta(db, id, b)
    case DeleteCarta(id) => CartaController.DeleteCarta(db, id)
    case PostVenta(b) => VentaController.CreateVenta(db, b)
    case PutVenta(id, b) => VentaController.UpdateVenta(db, id, b)
    case DeleteVenta(id) => VentaController.DeleteVenta(db, id)
    case PostResenna(b) => ResennaController.CreateResenna(db, b)
    case PutResenna(id, b) => ResennaController.UpdateResenna(db, id, b)
    case DeleteResenna(id) => ResennaController.DeleteResenna(db, id)
    case PostUsuario(b) => UsuarioController.CreateUsuario(db, b, isEmail)
    case PutUsuario(id, b) => UsuarioController.UpdateUsuario(db, id, b, isEmail)
    case DeleteUsuario(id) => UsuarioController.DeleteUsuario(db, id)
  }

  /** Every sale that was sold in `db` is still stored, and still sold, in `db'`. */
  ghost predicate SoldKept(db: Db, db': Db) {
    forall k :: k in db.ventas.rows && db.ventas.rows[k].rec.Sold() ==>
      k in db'.ventas.rows && db'.ventas.rows[k].rec.Sold()
  }

  /**
   * The requests handled one after another. Whatever they are, the database's
   * and the controllers' guarantees survive, no row disappears, and no sold
   * sale becomes a listing again.
   */
  function Run(db: Db, reqs: seq<Request>, isEmail: string -> bool): (db': Db)
    ensures Consistent(db, isEmail) ==> Consistent(db', isEmail)
    ensures Extends(db, db')
    ensures Consistent(db, isEmail) ==> SoldKept(db, db')
    decreases |reqs|
  {
    if reqs == [] then
      db
    else
      var db1 := Handle(db, reqs[0], isEmail).db;
      HandlePreserves(db, reqs[0], isEmail);
      HandleKeepsSold(db, reqs[0], isEmail);
      Run(db1, reqs[1..], isEmail)
  }

  /** No request takes the buyer off a sold sale. */
  lemma HandleKeepsSold(db: Db, req: Request, isEmail: string -> bool)
    ensures Store.Valid(db.ventas) ==> SoldKept(db, Handle(db, req, isEmail).db)
  {
    var db' := Handle(db, req, isEmail).db;
    forall k | Store.Valid(db.ventas) && k in db.ventas.rows && db.ventas.rows[k].rec.Sold()
      ensures k in db'.ventas.rows && db'.ventas.rows[k].rec.Sold()
    {
      match req
      case PutVenta(id, b) => VentaController.UpdateKeepsSold(db, id, b, k);
      case PostVenta(b) =>
        var o := VentaController.CreateVenta(db, b);
        if o.status == Created {
          var w := VentaService.CreateVenta(db, VentaController.NewVenta(b));
          assert o.db == w.db;
        }
      case _ =>
    }
  }

  /** Every request keeps the database's and the controllers' guarantees. */
  lemma HandlePreserves(db: Db, req: Request, isEmail: string -> bool)
    ensures Consistent(db, isEmail) ==> Consistent(Handle(db, req, isEmail).db, isEmail)
  {
    if Consistent(db, isEmail) {
      match req
      case PostCarta(b) => Invariants.CreateCartaPreserves(db, b, isEmail);
      case PutCarta(id, b) => Invariants.UpdateCartaPreserves(db, id, b, isEmail);
      case DeleteCarta(id) => Invariants.DeleteCartaPreserves(db, id, isEmail);
      case PostVenta(b) => Invariants.CreateVentaPreserves(db, b, isEmail);
      case PutVenta(id, b) => Invariants.UpdateVentaPreserves(db, id, b, isEmail);
      case DeleteVenta(id) => Invariants.DeleteVentaPreserves(db, id, isEmail);
      case PostResenna(b) => Invariants.CreateResennaPreserves(db, b, isEmail);
      case PutResenna(id, b) => Invariants.UpdateResennaPreserves(db, id, b, isEmail);
      case DeleteResenna(id) => Invariants.DeleteResennaPreserves(db, id, isEmail);
      case PostUsuario(b) => Invariants.CreateUsuarioPreserves(db, b, isEmail);
      case PutUsuario(id, b) => Invariants.UpdateUsuarioPreserves(db, id, b, isEmail);
      case DeleteUsuario(id) => Invariants.DeleteUsuarioPreserves(db, id, isEmail);
    }
  }

  /**
   * Soft-deleting a card fires no ON DELETE CASCADE, but the sale reads' inner
   * join hides exactly the sales of that card; every other sale reads as before.
   */
  lemma DeletedCardHidesItsSales(db: Db, c: int)
    requires CartaController.DeleteCarta(db, c).status == NoContent
    ensures var before := VentaService.GetAllVentas(db);
      var after := VentaService.GetAllVentas(CartaController.DeleteCarta(db, c).db);
      && (forall id :: id in after <==> id in before && before[id].venta.idCarta != c)
      && (forall id :: id in after ==> after[id] == before[id])
  {
    var db' := CartaController.DeleteCarta(db, c).db;
    var before := VentaService.GetAllVentas(db);
    var after := VentaService.GetAllVentas(db');
    forall id | Store.Live(db.ventas, id)
      ensures VentaService.Join(db', db.ventas.rows[id].rec) ==
        if db.ventas.rows[id].rec.idCarta == c then None else VentaService.Join(db, db.ventas.rows[id].rec)
    {
      var v := db.ventas.rows[id].rec;
      assert Store.Live(db'.cartas, v.idCarta) <==> v.idCarta != c && Store.Live(db.cartas, v.idCarta) by {
        assert v.idCarta in Store.Visible(db'.cartas) <==> v.idCarta != c && v.idCarta in Store.Visible(db.cartas);
      }
    }
  }

  /**
   * Soft-deleting a user fires neither CASCADE nor SET NULL, but the joins hide
   * exactly the reviews they wrote and the sales they offered, and the sales they
   * bought read with no buyer while keeping the buyer reference.
   */
  lemma DeletedUserHidesTheirs(db: Db, u: int)
    requires UsuarioController.DeleteUsuario(db, u).status == NoContent
    ensures var before := ResennaService.GetAllResennas(db);
      var after := ResennaService.GetAllResennas(UsuarioController.DeleteUsuario(db, u).db);
      forall id :: id in after <==> id in before && before[id].resenna.idUsuario != u
    ensures var before := VentaService.GetAllVentas(db);
      var after := VentaService.GetAllVentas(UsuarioController.DeleteUsuario(db, u).db);
      && (forall id :: id in after <==> id in before && before[id].venta.vendedor != u)
      && (forall id :: id in after ==> after[id].venta == before[id].venta)
      && (forall id :: id in after ==>
            (after[id].comprador.Some? <==> before[id].comprador.Some? && after[id].venta.comprador != Some(u)))
  {
    var db' := UsuarioController.DeleteUsuario(db, u).db;
    assert db' == db.(usuarios := db'.usuarios);
    forall k
      ensures Store.Live(db'.usuarios, k) <==> k != u && Store.Live(db.usuarios, k)
    {
      assert k in Store.Visible(db'.usuarios) <==> k != u && k in Store.Visible(db.usuarios);
    }
  }
}
