/** services/usuarioService.js: user lookups, existence tests and writes. */
module UsuarioService {
  import opened Wrappers
  import Store
  import opened ResennaModel
  import opened UsuarioModel
  import opened Database

  /** A user as getUsuarioById returns it, with the live reviews they wrote. */
  datatype UsuarioView = UsuarioView(usuario: Usuario, resennas: map<int, Resenna>)

  /** getUsuarioById: the live user with their live reviews (left join), or null. */
  function GetUsuarioById(db: Db, id: int): (r: Option<UsuarioView>)
    ensures r.Some? <==> Store.Live(db.usuarios, id)
    ensures r.Some? ==> r.value.usuario == db.usuarios.rows[id].rec
    ensures r.Some? ==> forall k :: k in r.value.resennas <==>
      Store.Live(db.resennas, k) && db.resennas.rows[k].rec.idUsuario == id
    ensures r.Some? ==> forall k :: k in r.value.resennas ==> k in db.resennas.rows && r.value.resennas[k] == db.resennas.rows[k].rec
  {
    if Store.Live(db.usuarios, id) then
      var own := map k | k in db.resennas.rows && !db.resennas.rows[k].deleted && db.resennas.rows[k].rec.idUsuario == id
        :: db.resennas.rows[k].rec;
      Some(UsuarioView(db.usuarios.rows[id].rec, own))
    else
      None
  }

  /**
   * getAllUsuarios: every live user with their live reviews (left join, so a
   * user without reviews is listed too); each entry is what getUsuarioById
   * returns for that id.
   */
  function GetAllUsuarios(db: Db): (m: map<int, UsuarioView>)
    ensures forall id :: id in m <==> Store.Live(db.usuarios, id)
    ensures forall id :: id in m ==> GetUsuarioById(db, id) == Some(m[id])
  {
    map id | id in db.usuarios.rows && !db.usuarios.rows[id].deleted :: GetUsuarioById(db, id).value
  }

  /** usuarioExists: some user that is not soft-deleted has this username. */
  function UsuarioExists(db: Db, nombre: string): (b: bool)
    ensures b <==> exists id :: id in Store.Visible(db.usuarios) && Store.Visible(db.usuarios)[id].nombreUsuario == nombre
  {
    var found := exists id :: id in db.usuarios.rows && !db.usuarios.rows[id].deleted && db.usuarios.rows[id].rec.nombreUsuario == nombre;
    assert found ==> exists id :: id in Store.Visible(db.usuarios) && Store.Visible(db.usuarios)[id].nombreUsuario == nombre by {
      if found {
        var id :| id in db.usuarios.rows && !db.usuarios.rows[id].deleted && db.usuarios.rows[id].rec.nombreUsuario == nombre;
        assert Store.Live(db.usuarios, id);
      }
    }
    found
  }

  /** emailExists: some user that is not soft-deleted has this email. */
  function EmailExists(db: Db, email: string): (b: bool)
    ensures b <==> exists id :: id in Store.Visible(db.usuarios) && Store.Visible(db.usuarios)[id].email == email
  {
    var found := exists id :: id in db.usuarios.rows && !db.usuarios.rows[id].deleted && db.usuarios.rows[id].rec.email == email;
    assert found ==> exists id :: id in Store.Visible(db.usuarios) && Store.Visible(db.usuarios)[id].email == email by {
      if found {
        var id :| id in db.usuarios.rows && !db.usuarios.rows[id].deleted && db.usuarios.rows[id].rec.email == email;
        assert Store.Live(db.usuarios, id);
      }
    }
    found
  }

  /**
   * getUsuarioByNombreUsuario: the id of a live user with this username, or null.
   * Which one `findOne` picks is unspecified; the unique index makes it the only one.
   */
  ghost function GetUsuarioByNombreUsuario(db: Db, nombre: string): (r: Option<int>)
    ensures r.Some? <==> UsuarioExists(db, nombre)
    ensures r.Some? ==> Store.Live(db.usuarios, r.value) && db.usuarios.rows[r.value].rec.nombreUsuario == nombre
  {
    if exists id :: Store.Live(db.usuarios, id) && db.usuarios.rows[id].rec.nombreUsuario == nombre then
      var id :| Store.Live(db.usuarios, id) && db.usuarios.rows[id].rec.nombreUsuario == nombre;
      Some(id)
    else
      None
  }

  /** Under the unique index, the user getUsuarioByNombreUsuario finds is the only live user with that name. */
  lemma ByNombreIsTheOne(db: Db, nombre: string, k: int, isEmail: string -> bool)
    requires Sound(db, isEmail)
    requires Store.Live(db.usuarios, k) && db.usuarios.rows[k].rec.nombreUsuario == nombre
    ensures GetUsuarioByNombreUsuario(db, nombre) == Some(k)
  {
    assert k in Store.Visible(db.usuarios);
    var r := GetUsuarioByNombreUsuario(db, nombre);
    assert UsuarioAccepted(db, k, db.usuarios.rows[k].rec, isEmail);
  }

  /** The write `Usuario.create` performs: the user under a fresh id, unless the database refuses it. */
  function InsertUsuario(db: Db, u: Usuario, isEmail: string -> bool): (w: Write<int>)
    ensures w.Rejected? <==> !UsuarioAccepted(db, db.usuarios.next, u, isEmail)
    ensures w.Done? ==>
      && w.result.Some?
      && w.db == db.(usuarios := w.db.usuarios) && Extends(db, w.db)
      && Store.Visible(w.db.usuarios) == Store.Visible(db.usuarios)[w.result.value := u]
      && (Store.Valid(db.usuarios) ==> Store.Valid(w.db.usuarios) && w.result.value !in db.usuarios.rows)
      && w.result.value == db.usuarios.next
      && w.db.usuarios.rows.Keys == db.usuarios.rows.Keys + {w.result.value}
      && w.db.usuarios.rows[w.result.value].rec == u
      && (forall k :: k in db.usuarios.rows && k != w.result.value ==> k in w.db.usuarios.rows && w.db.usuarios.rows[k] == db.usuarios.rows[k])
  {
    if UsuarioAccepted(db, db.usuarios.next, u, isEmail) then
      var (t, id) := Store.Insert(db.usuarios, u);
      Done(Some(id), db.(usuarios := t))
    else
      Rejected
  }

  /**
   * createUsuario as written: a refused write is caught and logged, and the
   * service resolves to `undefined` (None) instead of throwing.
   */
  function CreateUsuarioAsWritten(db: Db, u: Usuario, isEmail: string -> bool): (w: Write<int>)
    ensures w.Done?
    ensures w.result.None? <==> !UsuarioAccepted(db, db.usuarios.next, u, isEmail)
    ensures w.result.None? ==> w.db == db
    ensures w.result.Some? ==> InsertUsuario(db, u, isEmail) == w
  {
    match InsertUsuario(db, u, isEmail)
    case Rejected => Done(None, db)
    case Done(id, db') => Done(id, db')
  }

  /** createUsuario corrected to rethrow like every other service: a refused write surfaces as a refusal. */
  function CreateUsuario(db: Db, u: Usuario, isEmail: string -> bool): (w: Write<int>)
    ensures w.Rejected? <==> !UsuarioAccepted(db, db.usuarios.next, u, isEmail)
    ensures w.Done? ==> w.result.Some? && w == CreateUsuarioAsWritten(db, u, isEmail)
  {
    InsertUsuario(db, u, isEmail)
  }

  /** updateUsuario: null and no change when the user is not found, a refusal, or the row replaced. */
  function UpdateUsuario(db: Db, id: int, u: Usuario, isEmail: string -> bool): (w: Write<Usuario>)
    ensures !Store.Live(db.usuarios, id) ==> w == Done(None, db)
    ensures Store.Live(db.usuarios, id) ==> (w.Rejected? <==> !UsuarioAccepted(db, id, u, isEmail))
    ensures w.Done? && w.result.Some? ==>
      && Store.Live(db.usuarios, id)
      && w.result.value == u
      && w.db == db.(usuarios := w.db.usuarios)
      && Store.Visible(w.db.usuarios) == Store.Visible(db.usuarios)[id := u]
      && w.db.usuarios.rows.Keys == db.usuarios.rows.Keys
      && w.db.usuarios.rows[id].rec == u
      && (forall k :: k in db.usuarios.rows && k != id ==> k in w.db.usuarios.rows && w.db.usuarios.rows[k] == db.usuarios.rows[k])
      && (Store.Valid(db.usuarios) ==> Store.Valid(w.db.usuarios))
    ensures w.Done? ==> Extends(db, w.db)
  {
    if !Store.Live(db.usuarios, id) then
      Done(None, db)
    else if !UsuarioAccepted(db, id, u, isEmail) then
      Rejected
    else
      Done(Some(u), db.(usuarios := Store.Put(db.usuarios, id, u)))
  }

  /** deleteUsuario: null when the user is not found, else the user soft-deleted and returned. */
  function DeleteUsuario(db: Db, id: int): (w: Write<Usuario>)
    ensures w.Done?
    ensures w.result.Some? <==> Store.Live(db.usuarios, id)
    ensures w.result.None? ==> w.db == db
    ensures w.result.Some? ==>
      && w.result.value == db.usuarios.rows[id].rec
      && w.db == db.(usuarios := w.db.usuarios)
      && Store.Visible(w.db.usuarios) == Store.Visible(db.usuarios) - {id}
      && (forall k :: k in db.usuarios.rows ==> k in w.db.usuarios.rows && w.db.usuarios.rows[k].rec == db.usuarios.rows[k].rec)
    ensures Extends(db, w.db) && w.db.usuarios.rows.Keys == db.usuarios.rows.Keys
    ensures Store.Valid(db.usuarios) ==> Store.Valid(w.db.usuarios)
  {
    if Store.Live(db.usuarios, id) then
      Done(Some(db.usuarios.rows[id].rec), db.(usuarios := Store.SoftDelete(db.usuarios, id)))
    else
      Done(None, db)
  }
}
