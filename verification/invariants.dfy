/**
 * Why every controller keeps `Consistent`: the database's constraints hold for
 * each row it writes, and the controllers' own checks (truthy fields, the merge,
 * the email test) keep the stronger guarantees.
 */
module Invariants {
  import opened Wrappers
  import opened Http
  import Store
  import opened CartaModel
  import opened VentaModel
  import opened ResennaModel
  import opened UsuarioModel
  import opened Database
  import CartaService
  import VentaService
  import ResennaService
  import UsuarioService
  import CartaController
  import VentaController
  import ResennaController
  import UsuarioController

  /** A write confined to the card table that keeps its rows complete keeps the whole state consistent. */
  lemma CartasOnly(db: Db, db': Db, isEmail: string -> bool)
    requires Consistent(db, isEmail)
    requires db' == db.(cartas := db'.cartas)
    requires Store.Valid(db'.cartas) && db.cartas.rows.Keys <= db'.cartas.rows.Keys
    requires forall id :: id in db'.cartas.rows ==> db'.cartas.rows[id].rec.Complete()
    ensures Consistent(db', isEmail)
  {
    forall id | id in db'.ventas.rows
      ensures VentaAccepted(db', db'.ventas.rows[id].rec)
    {
      assert VentaAccepted(db, db.ventas.rows[id].rec);
    }
  }

  /** A write confined to the sale table whose rows the database accepts keeps the whole state consistent. */
  lemma VentasOnly(db: Db, db': Db, isEmail: string -> bool)
    requires Consistent(db, isEmail)
    requires db' == db.(ventas := db'.ventas)
    requires Store.Valid(db'.ventas)
    requires forall id :: id in db'.ventas.rows ==> VentaAccepted(db', db'.ventas.rows[id].rec)
    ensures Consistent(db', isEmail)
  {
  }

  /** A write confined to the review table whose rows are accepted and described keeps the whole state consistent. */
  lemma ResennasOnly(db: Db, db': Db, isEmail: string -> bool)
    requires Consistent(db, isEmail)
    requires db' == db.(resennas := db'.resennas)
    requires Store.Valid(db'.resennas)
    requires forall id :: id in db'.resennas.rows ==>
      ResennaAccepted(db', db'.resennas.rows[id].rec) && db'.resennas.rows[id].rec.descripcion != ""
    ensures Consistent(db', isEmail)
  {
  }

  /** A write confined to the user table that keeps every row accepted and complete and live emails distinct. */
  lemma UsuariosOnly(db: Db, db': Db, isEmail: string -> bool)
    requires Consistent(db, isEmail)
    requires db' == db.(usuarios := db'.usuarios)
    requires Store.Valid(db'.usuarios) && db.usuarios.rows.Keys <= db'.usuarios.rows.Keys
    requires forall id :: id in db'.usuarios.rows ==>
      UsuarioAccepted(db', id, db'.usuarios.rows[id].rec, isEmail) && db'.usuarios.rows[id].rec.Complete()
    requires EmailsDistinct(db')
    ensures Consistent(db', isEmail)
  {
    forall id | id in db'.ventas.rows
      ensures VentaAccepted(db', db'.ventas.rows[id].rec)
    {
      assert VentaAccepted(db, db.ventas.rows[id].rec);
    }
    forall id | id in db'.resennas.rows
      ensures ResennaAccepted(db', db'.resennas.rows[id].rec)
    {
      assert ResennaAccepted(db, db.resennas.rows[id].rec);
    }
  }

  lemma CreateCartaPreserves(db: Db, b: CartaController.CartaBody, isEmail: string -> bool)
    requires Consistent(db, isEmail)
    ensures Consistent(CartaController.CreateCarta(db, b).db, isEmail)
  {
    var o := CartaController.CreateCarta(db, b);
    if o.db != db {
      var w := CartaService.CreateCarta(db, CartaController.NewCarta(b));
      assert o.db == w.db;
      CartasOnly(db, o.db, isEmail);
    }
  }

  lemma UpdateCartaPreserves(db: Db, id: int, b: CartaController.CartaBody, isEmail: string -> bool)
    requires Consistent(db, isEmail)
    ensures Consistent(CartaController.UpdateCarta(db, id, b).db, isEmail)
  {
    var o := CartaController.UpdateCarta(db, id, b);
    if o.db != db {
      var m := CartaController.Merge(db.cartas.rows[id].rec, b);
      var w := CartaService.UpdateCarta(db, id, m);
      assert o.db == w.db;
      CartasOnly(db, o.db, isEmail);
    }
  }

  lemma DeleteCartaPreserves(db: Db, id: int, isEmail: string -> bool)
    requires Consistent(db, isEmail)
    ensures Consistent(CartaController.DeleteCarta(db, id).db, isEmail)
  {
    var o := CartaController.DeleteCarta(db, id);
    if o.db != db {
      CartasOnly(db, o.db, isEmail);
    }
  }

  lemma CreateVentaPreserves(db: Db, b: VentaController.VentaBody, isEmail: string -> bool)
    requires Consistent(db, isEmail)
    ensures Consistent(VentaController.CreateVenta(db, b).db, isEmail)
  {
    var o := VentaController.CreateVenta(db, b);
    if o.db != db {
      var v := VentaController.NewVenta(b);
      var w := VentaService.CreateVenta(db, v);
      assert o.db == w.db;
      forall k | k in o.db.ventas.rows
        ensures VentaAccepted(o.db, o.db.ventas.rows[k].rec)
      {
        if k != w.result.value {
          assert VentaAccepted(db, db.ventas.rows[k].rec);
        }
      }
      VentasOnly(db, o.db, isEmail);
    }
  }

  lemma UpdateVentaPreserves(db: Db, id: int, b: VentaController.VentaBody, isEmail: string -> bool)
    requires Consistent(db, isEmail)
    ensures Consistent(VentaController.UpdateVenta(db, id, b).db, isEmail)
  {
    var o := VentaController.UpdateVenta(db, id, b);
    if o.db != db {
      var v := VentaController.Merge(db.ventas.rows[id].rec, b);
      var w := VentaService.UpdateVenta(db, id, v);
      assert o.db == w.db;
      forall k | k in o.db.ventas.rows
        ensures VentaAccepted(o.db, o.db.ventas.rows[k].rec)
      {
        if k != id {
          assert VentaAccepted(db, db.ventas.rows[k].rec);
        }
      }
      VentasOnly(db, o.db, isEmail);
    }
  }

  lemma DeleteVentaPreserves(db: Db, id: int, isEmail: string -> bool)
    requires Consistent(db, isEmail)
    ensures Consistent(VentaController.DeleteVenta(db, id).db, isEmail)
  {
    var o := VentaController.DeleteVenta(db, id);
    if o.db != db {
      forall k | k in o.db.ventas.rows
        ensures VentaAccepted(o.db, o.db.ventas.rows[k].rec)
      {
        assert VentaAccepted(db, db.ventas.rows[k].rec);
      }
      VentasOnly(db, o.db, isEmail);
    }
  }

  lemma CreateResennaPreserves(db: Db, b: ResennaController.ResennaBody, isEmail: string -> bool)
    requires Consistent(db, isEmail)
    ensures Consistent(ResennaController.CreateResenna(db, b).db, isEmail)
  {
    var o := ResennaController.CreateResenna(db, b);
    if o.db != db {
      var r := Resenna(b.descripcion.value, b.valoracion.value, b.idUsuario.value);
      var w := ResennaService.CreateResenna(db, r);
      assert o.db == w.db;
      forall k | k in o.db.resennas.rows
        ensures ResennaAccepted(o.db, o.db.resennas.rows[k].rec) && o.db.resennas.rows[k].rec.descripcion != ""
      {
        if k != w.result.value {
          assert ResennaAccepted(db, db.resennas.rows[k].rec);
        }
      }
      ResennasOnly(db, o.db, isEmail);
    }
  }

  /** One write of the review table, as updateResenna does it (once or twice), keeps consistency. */
  lemma ResennaWritePreserves(db: Db, id: int, r: Resenna, isEmail: string -> bool)
    requires Consistent(db, isEmail) && r.descripcion != ""
    ensures ResennaService.UpdateResenna(db, id, r).Done? ==> Consistent(ResennaService.UpdateResenna(db, id, r).db, isEmail)
  {
    var w := ResennaService.UpdateResenna(db, id, r);
    if w.Done? && w.result.Some? {
      forall k | k in w.db.resennas.rows
        ensures ResennaAccepted(w.db, w.db.resennas.rows[k].rec) && w.db.resennas.rows[k].rec.descripcion != ""
      {
        if k != id {
          assert ResennaAccepted(db, db.resennas.rows[k].rec);
        }
      }
      ResennasOnly(db, w.db, isEmail);
    }
  }

  lemma UpdateResennaPreserves(db: Db, id: int, b: ResennaController.ResennaBody, isEmail: string -> bool)
    requires Consistent(db, isEmail)
    ensures Consistent(ResennaController.UpdateResenna(db, id, b).db, isEmail)
  {
    var o := ResennaController.UpdateResenna(db, id, b);
    if !ResennaController.UpdateRefused(b) && ResennaService.GetResennaById(db, id).Some? {
      var prior := db.resennas.rows[id].rec;
      var m := ResennaController.Merge(prior, b);
      ResennaWritePreserves(db, id, m, isEmail);
      var w1 := ResennaService.UpdateResenna(db, id, m);
      if w1.Done? && ResennaController.Reassigns(prior, b) && Store.Live(w1.db.usuarios, b.idUsuario.value) {
        ResennaWritePreserves(w1.db, id, m.(idUsuario := b.idUsuario.value), isEmail);
      }
    }
  }

  lemma DeleteResennaPreserves(db: Db, id: int, isEmail: string -> bool)
    requires Consistent(db, isEmail)
    ensures Consistent(ResennaController.DeleteResenna(db, id).db, isEmail)
  {
    var o := ResennaController.DeleteResenna(db, id);
    if o.db != db {
      forall k | k in o.db.resennas.rows
        ensures ResennaAccepted(o.db, o.db.resennas.rows[k].rec) && o.db.resennas.rows[k].rec.descripcion != ""
      {
        assert ResennaAccepted(db, db.resennas.rows[k].rec);
      }
      ResennasOnly(db, o.db, isEmail);
    }
  }

  lemma CreateUsuarioPreserves(db: Db, b: UsuarioController.UsuarioBody, isEmail: string -> bool)
    requires Consistent(db, isEmail)
    ensures Consistent(UsuarioController.CreateUsuario(db, b, isEmail).db, isEmail)
  {
    var o := UsuarioController.CreateUsuario(db, b, isEmail);
    if o.db != db {
      var u := UsuarioController.NewUsuario(b);
      var w := UsuarioService.CreateUsuario(db, u, isEmail);
      var newId := db.usuarios.next;
      assert o.db == w.db && w.result == Some(newId);
      assert !UsuarioService.EmailExists(db, u.email);
      forall k | k in o.db.usuarios.rows
        ensures UsuarioAccepted(o.db, k, o.db.usuarios.rows[k].rec, isEmail) && o.db.usuarios.rows[k].rec.Complete()
      {
        if k != newId {
          assert UsuarioAccepted(db, k, db.usuarios.rows[k].rec, isEmail);
          assert UsuarioAccepted(db, newId, u, isEmail);
        }
      }
      forall i, j | Store.Live(o.db.usuarios, i) && Store.Live(o.db.usuarios, j) && i != j
        ensures o.db.usuarios.rows[i].rec.email != o.db.usuarios.rows[j].rec.email
      {
        if i == newId {
          assert j in Store.Visible(db.usuarios);
        } else if j == newId {
          assert i in Store.Visible(db.usuarios);
        }
      }
      UsuariosOnly(db, o.db, isEmail);
    }
  }

  lemma UpdateUsuarioPreserves(db: Db, id: int, b: UsuarioController.UsuarioBody, isEmail: string -> bool)
    requires Consistent(db, isEmail)
    ensures Consistent(UsuarioController.UpdateUsuario(db, id, b, isEmail).db, isEmail)
  {
    var o := UsuarioController.UpdateUsuario(db, id, b, isEmail);
    if o.db != db {
      var u := UsuarioController.NewUsuario(b);
      var current := db.usuarios.rows[id].rec;
      var w := UsuarioService.UpdateUsuario(db, id, u, isEmail);
      assert o.db == w.db;
      assert UsuarioAccepted(db, id, u, isEmail);
      forall k | k in o.db.usuarios.rows
        ensures UsuarioAccepted(o.db, k, o.db.usuarios.rows[k].rec, isEmail) && o.db.usuarios.rows[k].rec.Complete()
      {
        if k != id {
          assert UsuarioAccepted(db, k, db.usuarios.rows[k].rec, isEmail);
        }
      }
      forall i, j | Store.Live(o.db.usuarios, i) && Store.Live(o.db.usuarios, j) && i != j
        ensures o.db.usuarios.rows[i].rec.email != o.db.usuarios.rows[j].rec.email
      {
        if i == id || j == id {
          var other := if i == id then j else i;
          assert other in Store.Visible(db.usuarios);
          if u.email != current.email {
            assert !UsuarioService.EmailExists(db, u.email);
          }
        }
      }
      UsuariosOnly(db, o.db, isEmail);
    }
  }

  lemma DeleteUsuarioPreserves(db: Db, id: int, isEmail: string -> bool)
    requires Consistent(db, isEmail)
    ensures Consistent(UsuarioController.DeleteUsuario(db, id).db, isEmail)
  {
    var o := UsuarioController.DeleteUsuario(db, id);
    if o.db != db {
      forall k | k in o.db.usuarios.rows
        ensures UsuarioAccepted(o.db, k, o.db.usuarios.rows[k].rec, isEmail) && o.db.usuarios.rows[k].rec.Complete()
      {
        assert UsuarioAccepted(db, k, db.usuarios.rows[k].rec, isEmail);
      }
      UsuariosOnly(db, o.db, isEmail);
    }
  }
}
