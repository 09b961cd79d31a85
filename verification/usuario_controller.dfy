/** controllers/usuarioController.js: required fields and username/email uniqueness for users. */
module UsuarioController {
  import opened Wrappers
  import opened Http
  import Store
  import opened UsuarioModel
  import opened Database
  import UsuarioService

  /** The three properties the handlers destructure from `req.body`. */
  datatype UsuarioBody = UsuarioBody(nombreUsuario: Field<string>, email: Field<string>, contrasenna: Field<string>)

  /** Both handlers' guard: all three properties truthy. */
  predicate FieldsPresent(b: UsuarioBody) {
    TruthyStr(b.nombreUsuario) && TruthyStr(b.email) && TruthyStr(b.contrasenna)
  }

  /** The record both handlers hand to the service: exactly the three properties. */
  function NewUsuario(b: UsuarioBody): (u: Usuario)
    requires FieldsPresent(b)
    ensures u.nombreUsuario == b.nombreUsuario.value
    ensures u.email == b.email.value
    ensures u.contrasenna == b.contrasenna.value
    ensures u.Complete()
  {
    Usuario(b.nombreUsuario.value, b.email.value, b.contrasenna.value)
  }

  /** getUsuarios: 200 with every live user and their reviews; no users is an empty list, not an error. */
  function GetUsuarios(db: Db): (r: Reply<map<int, UsuarioService.UsuarioView>>)
    ensures r.status == Ok
    ensures forall id :: id in r.body <==> Store.Live(db.usuarios, id)
    ensures r.body == UsuarioService.GetAllUsuarios(db)
    ensures forall id :: id in r.body ==> id in db.usuarios.rows && r.body[id].usuario == db.usuarios.rows[id].rec
  {
    var usuarios := UsuarioService.GetAllUsuarios(db);
    if |usuarios| == 0 then Reply(Ok, map[]) else Reply(Ok, usuarios)
  }

  /** getUsuarioById: 404 exactly when the user is absent or soft-deleted, else 200 with the user and their reviews. */
  function GetUsuarioById(db: Db, id: int): (r: Reply<Option<UsuarioService.UsuarioView>>)
    ensures r.status == NotFound <==> !Store.Live(db.usuarios, id)
    ensures r.status != NotFound ==>
      r.status == Ok && r.body.Some? && r.body.value == UsuarioService.GetAllUsuarios(db)[id]
    ensures r.status == NotFound ==> r.body.None?
  {
    match UsuarioService.GetUsuarioById(db, id)
    case None => Reply(NotFound, None)
    case Some(u) => Reply(Ok, Some(u))
  }

  /** createUsuario's 400 cases: a falsy property, or a username or email some live user already has. */
  predicate CreateRefused(db: Db, b: UsuarioBody) {
    !FieldsPresent(b)
    || UsuarioService.UsuarioExists(db, b.nombreUsuario.value)
    || UsuarioService.EmailExists(db, b.email.value)
  }

  /**
   * createUsuario as written: since the service swallows a refused write and
   * resolves to `undefined`, every request past the 400 checks answers 201,
   * whether or not a user was stored.
   */
  function CreateUsuarioAsWritten(db: Db, b: UsuarioBody, isEmail: string -> bool): (o: Outcome)
    ensures o.status in {Created, BadRequest}
    ensures o.status == BadRequest <==> CreateRefused(db, b)
    ensures o.status == BadRequest ==> o.db == db
    ensures o.status == Created && !UsuarioAccepted(db, db.usuarios.next, NewUsuario(b), isEmail) ==> o.db == db
    ensures o.status == Created && UsuarioAccepted(db, db.usuarios.next, NewUsuario(b), isEmail) ==>
      && o.db == db.(usuarios := o.db.usuarios)
      && Store.Visible(o.db.usuarios) == Store.Visible(db.usuarios)[db.usuarios.next := NewUsuario(b)]
    ensures o.db == CreateUsuario(db, b, isEmail).db
  {
    if !FieldsPresent(b) then
      Outcome(BadRequest, db)
    else if UsuarioService.UsuarioExists(db, b.nombreUsuario.value) then
      Outcome(BadRequest, db)
    else if UsuarioService.EmailExists(db, b.email.value) then
      Outcome(BadRequest, db)
    else
      match UsuarioService.CreateUsuarioAsWritten(db, NewUsuario(b), isEmail)
      case Done(_, db') => Outcome(Created, db')
      case Rejected => Outcome(ServerError, db)
  }

  /**
   * createUsuario with the service rethrowing: 400 as above, 500 and no change
   * when the database refuses the user (a soft-deleted user still holds the
   * username, or the email fails `isEmail`), else 201 with the user stored.
   */
  function CreateUsuario(db: Db, b: UsuarioBody, isEmail: string -> bool): (o: Outcome)
    ensures o.status in {Created, BadRequest, ServerError}
    ensures o.status == BadRequest <==> CreateRefused(db, b)
    ensures o.status == ServerError <==>
      !CreateRefused(db, b) && !UsuarioAccepted(db, db.usuarios.next, NewUsuario(b), isEmail)
    ensures o.status != Created ==> o.db == db
    ensures o.status == Created ==>
      && o.db == db.(usuarios := o.db.usuarios)
      && Store.Visible(o.db.usuarios) == Store.Visible(db.usuarios)[db.usuarios.next := NewUsuario(b)]
  {
    if !FieldsPresent(b) then
      Outcome(BadRequest, db)
    else if UsuarioService.UsuarioExists(db, b.nombreUsuario.value) then
      Outcome(BadRequest, db)
    else if UsuarioService.EmailExists(db, b.email.value) then
      Outcome(BadRequest, db)
    else
      match UsuarioService.CreateUsuario(db, NewUsuario(b), isEmail)
      case Done(_, db') => Outcome(Created, db')
      case Rejected => Outcome(ServerError, db)
  }

  /**
   * updateUsuario's 400 cases: a falsy property, or a username (email) some live
   * user has while the user being updated does not have it.
   */
  predicate UpdateConflict(db: Db, id: int, b: UsuarioBody)
    requires FieldsPresent(b) && Store.Live(db.usuarios, id)
  {
    var current := db.usuarios.rows[id].rec;
    || (UsuarioService.UsuarioExists(db, b.nombreUsuario.value) && current.nombreUsuario != b.nombreUsuario.value)
    || (UsuarioService.EmailExists(db, b.email.value) && current.email != b.email.value)
  }

  /**
   * updateUsuario: 400 on a falsy property, 404 on an unknown user, 400 on a
   * conflict with another user, 500 when the database refuses, all without
   * change; else 200 with exactly the three columns replaced.
   */
  function UpdateUsuario(db: Db, id: int, b: UsuarioBody, isEmail: string -> bool): (o: Outcome)
    ensures o.status in {Ok, BadRequest, NotFound, ServerError}
    ensures o.status == NotFound <==> FieldsPresent(b) && !Store.Live(db.usuarios, id)
    ensures o.status == BadRequest <==> !FieldsPresent(b) || (Store.Live(db.usuarios, id) && UpdateConflict(db, id, b))
    ensures o.status == ServerError <==>
      FieldsPresent(b) && Store.Live(db.usuarios, id) && !UpdateConflict(db, id, b)
      && !UsuarioAccepted(db, id, NewUsuario(b), isEmail)
    ensures o.status != Ok ==> o.db == db
    ensures o.status == Ok ==>
      && o.db == db.(usuarios := o.db.usuarios)
      && Store.Visible(o.db.usuarios) == Store.Visible(db.usuarios)[id := NewUsuario(b)]
  {
    if !FieldsPresent(b) then
      Outcome(BadRequest, db)
    else
      match UsuarioService.GetUsuarioById(db, id)
      case None => Outcome(NotFound, db)
      case Some(view) =>
        if UsuarioService.UsuarioExists(db, b.nombreUsuario.value) && view.usuario.nombreUsuario != b.nombreUsuario.value then
          Outcome(BadRequest, db)
        else if UsuarioService.EmailExists(db, b.email.value) && view.usuario.email != b.email.value then
          Outcome(BadRequest, db)
        else
          match UsuarioService.UpdateUsuario(db, id, NewUsuario(b), isEmail)
          case Rejected => Outcome(ServerError, db)
          case Done(None, _) => Outcome(ServerError, db)
          case Done(Some(_), db') => Outcome(Ok, db')
  }

  /** deleteUsuario: 204 with the user soft-deleted when it was live, else 404 and no change. */
  function DeleteUsuario(db: Db, id: int): (o: Outcome)
    ensures o.status == NoContent <==> Store.Live(db.usuarios, id)
    ensures o.status != NoContent ==> o.status == NotFound && o.db == db
    ensures o.status == NoContent ==>
      && o.db == db.(usuarios := o.db.usuarios)
      && Store.Visible(o.db.usuarios) == Store.Visible(db.usuarios) - {id}
  {
    match UsuarioService.DeleteUsuario(db, id)
    case Done(Some(_), db') => Outcome(NoContent, db')
    case Done(None, _) => Outcome(NotFound, db)
    case Rejected => Outcome(ServerError, db)
  }

  /**
   * The username check of an update excludes the user being updated: under the
   * unique index it refuses a username exactly when another live user holds it.
   */
  lemma UsernameConflictMeansOther(db: Db, id: int, nombre: string, isEmail: string -> bool)
    requires Sound(db, isEmail) && Store.Live(db.usuarios, id)
    ensures (UsuarioService.UsuarioExists(db, nombre) && db.usuarios.rows[id].rec.nombreUsuario != nombre)
        <==> exists k :: k != id && Store.Live(db.usuarios, k) && db.usuarios.rows[k].rec.nombreUsuario == nombre
  {
    if UsuarioService.UsuarioExists(db, nombre) && db.usuarios.rows[id].rec.nombreUsuario != nombre {
      var k :| k in Store.Visible(db.usuarios) && Store.Visible(db.usuarios)[k].nombreUsuario == nombre;
      assert k != id && Store.Live(db.usuarios, k);
    }
    if exists k :: k != id && Store.Live(db.usuarios, k) && db.usuarios.rows[k].rec.nombreUsuario == nombre {
      var k :| k != id && Store.Live(db.usuarios, k) && db.usuarios.rows[k].rec.nombreUsuario == nombre;
      assert UsuarioAccepted(db, id, db.usuarios.rows[id].rec, isEmail);
      assert k in Store.Visible(db.usuarios);
    }
  }

  /**
   * The email check of an update excludes the user being updated: while live
   * users' emails are distinct, it refuses an email exactly when another live
   * user holds it.
   */
  lemma EmailConflictMeansOther(db: Db, id: int, email: string)
    requires EmailsDistinct(db) && Store.Live(db.usuarios, id)
    ensures (UsuarioService.EmailExists(db, email) && db.usuarios.rows[id].rec.email != email)
        <==> exists k :: k != id && Store.Live(db.usuarios, k) && db.usuarios.rows[k].rec.email == email
  {
    if UsuarioService.EmailExists(db, email) && db.usuarios.rows[id].rec.email != email {
      var k :| k in Store.Visible(db.usuarios) && Store.Visible(db.usuarios)[k].email == email;
      assert k != id && Store.Live(db.usuarios, k);
    }
    if exists k :: k != id && Store.Live(db.usuarios, k) && db.usuarios.rows[k].rec.email == email {
      var k :| k != id && Store.Live(db.usuarios, k) && db.usuarios.rows[k].rec.email == email;
      assert k in Store.Visible(db.usuarios);
    }
  }

  /** Resubmitting a user's own data succeeds and changes nothing visible. */
  lemma ResubmitOwnData(db: Db, id: int, isEmail: string -> bool)
    requires Consistent(db, isEmail) && Store.Live(db.usuarios, id)
    ensures var u := db.usuarios.rows[id].rec;
      var o := UpdateUsuario(db, id, UsuarioBody(Given(u.nombreUsuario), Given(u.email), Given(u.contrasenna)), isEmail);
      o.status == Ok && Store.Visible(o.db.usuarios) == Store.Visible(db.usuarios)
  {
    var u := db.usuarios.rows[id].rec;
    var b := UsuarioBody(Given(u.nombreUsuario), Given(u.email), Given(u.contrasenna));
    assert NewUsuario(b) == u;
    assert UsuarioAccepted(db, id, u, isEmail);
    assert Store.Visible(db.usuarios)[id := u] == Store.Visible(db.usuarios);
  }

  /**
   * The as-written handler answers 201 Created although nothing was stored:
   * "ana" belongs to a soft-deleted user, so usuarioExists misses her while the
   * unique index refuses the insert.
   */
  lemma CreatedWithoutUser()
    ensures var db := EmptyDb().(usuarios := Store.Table(map[1 := Store.Row(Usuario("ana", "a@x.es", "pw"), true)], 2));
      var b := UsuarioBody(Given("ana"), Given("b@x.es"), Given("pw2"));
      && CreateUsuarioAsWritten(db, b, _ => true) == Outcome(Created, db)
      && CreateUsuario(db, b, _ => true) == Outcome(ServerError, db)
  {
    var db := EmptyDb().(usuarios := Store.Table(map[1 := Store.Row(Usuario("ana", "a@x.es", "pw"), true)], 2));
    var b := UsuarioBody(Given("ana"), Given("b@x.es"), Given("pw2"));
    assert !UsuarioService.UsuarioExists(db, "ana");
    assert !UsuarioService.EmailExists(db, "b@x.es");
    assert !UsuarioAccepted(db, 2, NewUsuario(b), _ => true) by {
      assert db.usuarios.rows[1].rec.nombreUsuario == "ana";
    }
  }
}
