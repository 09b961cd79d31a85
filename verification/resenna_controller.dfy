/** controllers/resennaController.js: validation, rating range, author checks and the merge for reviews. */
module ResennaController {
  import opened Wrappers
  import opened Http
  import Store
  import opened ResennaModel
  import opened Database
  import ResennaService

  /** The three properties the handlers destructure from `req.body`. */
  datatype ResennaBody = ResennaBody(descripcion: Field<string>, valoracion: Field<int>, idUsuario: Field<int>)

  /**
   * `valoracion < 1 || valoracion > 5` as JavaScript evaluates it: `null` counts
   * as 0 and so is out of range, `undefined` is NaN and so is not.
   */
  predicate OutOfRange(f: Field<int>) {
    match AsNumber(f)
    case None => false
    case Some(n) => n < MinRating || n > MaxRating
  }

  /** createResenna's guard: description, rating and user id truthy. */
  predicate CreateFieldsPresent(b: ResennaBody) {
    TruthyStr(b.descripcion) && TruthyNum(b.valoracion) && TruthyNum(b.idUsuario)
  }

  /** updateResenna's 400 cases: neither a truthy description nor a defined rating, or a defined rating out of range. */
  predicate UpdateRefused(b: ResennaBody) {
    (!TruthyStr(b.descripcion) && b.valoracion.Absent?)
    || (!b.valoracion.Absent? && OutOfRange(b.valoracion))
  }

  /**
   * updateResenna's merge: `descripcion || prior` for the description but
   * `valoracion !== undefined ? valoracion : prior` for the rating, so any
   * defined rating is taken. The author is left as it was.
   */
  function Merge(prior: Resenna, b: ResennaBody): (r: Resenna)
    requires !UpdateRefused(b)
    ensures r.idUsuario == prior.idUsuario
    ensures RatingValid(prior.valoracion) ==> RatingValid(r.valoracion)
    ensures prior.descripcion != "" ==> r.descripcion != ""
    ensures r.descripcion == (if TruthyStr(b.descripcion) then b.descripcion.value else prior.descripcion)
    ensures b.valoracion.Absent? ==> r.valoracion == prior.valoracion
    ensures b.valoracion.Given? ==> r.valoracion == b.valoracion.value
  {
    var rating := match b.valoracion
      case Given(v) => v
      case _ => prior.valoracion;
    Resenna(OrStr(b.descripcion, prior.descripcion), rating, prior.idUsuario)
  }

  /** The update also moves the review to another author: a truthy user id that differs from the current one. */
  predicate Reassigns(prior: Resenna, b: ResennaBody) {
    TruthyNum(b.idUsuario) && b.idUsuario.value != prior.idUsuario
  }

  /** getResennas: 200 with every live review whose author is live; none is an empty list, not an error. */
  function GetResennas(db: Db): (r: Reply<map<int, ResennaService.ResennaView>>)
    ensures r.status == Ok
    ensures r.body == ResennaService.GetAllResennas(db)
    ensures forall id :: id in r.body <==> Store.Live(db.resennas, id) && Store.Live(db.usuarios, db.resennas.rows[id].rec.idUsuario)
  {
    var resennas := ResennaService.GetAllResennas(db);
    if |resennas| == 0 then Reply(Ok, map[]) else Reply(Ok, resennas)
  }

  /** getResennaById: 404 exactly when the review is absent or soft-deleted or its author is. */
  function GetResennaById(db: Db, id: int): (r: Reply<Option<ResennaService.ResennaView>>)
    ensures r.status == NotFound <==>
      !(Store.Live(db.resennas, id) && Store.Live(db.usuarios, db.resennas.rows[id].rec.idUsuario))
    ensures r.status != NotFound ==>
      && r.status == Ok && r.body.Some?
      && r.body.value.resenna == db.resennas.rows[id].rec
      && r.body.value.usuario == db.usuarios.rows[db.resennas.rows[id].rec.idUsuario].rec
  {
    match ResennaService.GetResennaById(db, id)
    case None => Reply(NotFound, None)
    case Some(v) => Reply(Ok, Some(v))
  }

  /**
   * createResenna: 400 when a property is falsy or the rating is out of 1..5,
   * 404 when the author is not a live user, all without change; else 201 with
   * exactly the three properties stored.
   */
  function CreateResenna(db: Db, b: ResennaBody): (o: Outcome)
    ensures o.status in {Created, BadRequest, NotFound}
    ensures o.status == BadRequest <==> !CreateFieldsPresent(b) || !RatingValid(b.valoracion.value)
    ensures o.status == NotFound <==>
      CreateFieldsPresent(b) && RatingValid(b.valoracion.value) && !Store.Live(db.usuarios, b.idUsuario.value)
    ensures o.status != Created ==> o.db == db
    ensures o.status == Created ==>
      && o.db == db.(resennas := o.db.resennas)
      && Store.Visible(o.db.resennas) ==
         Store.Visible(db.resennas)[db.resennas.next := Resenna(b.descripcion.value, b.valoracion.value, b.idUsuario.value)]
  {
    if !CreateFieldsPresent(b) then
      Outcome(BadRequest, db)
    else if b.valoracion.value < MinRating || b.valoracion.value > MaxRating then
      Outcome(BadRequest, db)
    else if Store.Find(db.usuarios, b.idUsuario.value).None? then
      Outcome(NotFound, db)
    else
      match ResennaService.CreateResenna(db, Resenna(b.descripcion.value, b.valoracion.value, b.idUsuario.value))
      case Done(_, db') => Outcome(Created, db')
      case Rejected => Outcome(ServerError, db)
  }

  /**
   * updateResenna. After validation and the lookup (which joins the author), the
   * merged description and rating are written first; only then is a new author
   * id checked, so an unknown author answers 404 with the first write kept.
   */
  function UpdateResenna(db: Db, id: int, b: ResennaBody): (o: Outcome)
    ensures o.status in {Ok, BadRequest, NotFound, ServerError}
    ensures o.status == BadRequest <==> UpdateRefused(b)
    ensures o.status == BadRequest ==> o.db == db
    ensures o.status == ServerError ==>
      o.db == db && id in db.resennas.rows && !RatingValid(db.resennas.rows[id].rec.valoracion)
    ensures !UpdateRefused(b) && ResennaService.GetResennaById(db, id).None? ==> o == Outcome(NotFound, db)
    ensures !UpdateRefused(b) && ResennaService.GetResennaById(db, id).Some? ==>
      var prior := db.resennas.rows[id].rec;
      RatingValid(prior.valoracion) ==>
      && o.db == db.(resennas := o.db.resennas)
      && (o.status == NotFound <==> Reassigns(prior, b) && !Store.Live(db.usuarios, b.idUsuario.value))
      && Store.Visible(o.db.resennas) == Store.Visible(db.resennas)[id :=
           if o.status == Ok && Reassigns(prior, b) then Merge(prior, b).(idUsuario := b.idUsuario.value)
           else Merge(prior, b)]
  {
    if UpdateRefused(b) then
      Outcome(BadRequest, db)
    else
      match ResennaService.GetResennaById(db, id)
      case None => Outcome(NotFound, db)
      case Some(view) =>
        var merged := Merge(view.resenna, b);
        match ResennaService.UpdateResenna(db, id, merged)
        case Rejected => Outcome(ServerError, db)
        case Done(_, db1) =>
          if Reassigns(view.resenna, b) then
            if Store.Find(db1.usuarios, b.idUsuario.value).None? then
              Outcome(NotFound, db1)
            else
              // `resenna.save()` writes only the changed column, the author.
              match ResennaService.UpdateResenna(db1, id, merged.(idUsuario := b.idUsuario.value))
              case Rejected => Outcome(ServerError, db1)
              case Done(_, db2) => Outcome(Ok, db2)
          else
            Outcome(Ok, db1)
  }

  /** deleteResenna: 204 with the review soft-deleted when it was live, else 404 and no change. */
  function DeleteResenna(db: Db, id: int): (o: Outcome)
    ensures o.status == NoContent <==> Store.Live(db.resennas, id)
    ensures o.status != NoContent ==> o.status == NotFound && o.db == db
    ensures o.status == NoContent ==>
      && o.db == db.(resennas := o.db.resennas)
      && Store.Visible(o.db.resennas) == Store.Visible(db.resennas) - {id}
  {
    match ResennaService.DeleteResenna(db, id)
    case Done(Some(_), db') => Outcome(NoContent, db')
    case Done(None, _) => Outcome(NotFound, db)
    case Rejected => Outcome(ServerError, db)
  }

  /**
   * The update is not atomic: when the body moves the review to an author who is
   * not a live user, the answer is 404 yet the new description and rating are
   * already stored, so the state differs from before whenever the merge changed
   * anything.
   */
  lemma UpdateNotAtomic(db: Db, id: int, b: ResennaBody)
    requires !UpdateRefused(b)
    requires ResennaService.GetResennaById(db, id).Some?
    requires RatingValid(db.resennas.rows[id].rec.valoracion)
    requires Reassigns(db.resennas.rows[id].rec, b) && !Store.Live(db.usuarios, b.idUsuario.value)
    ensures UpdateResenna(db, id, b).status == NotFound
    ensures Store.Visible(UpdateResenna(db, id, b).db.resennas)[id] == Merge(db.resennas.rows[id].rec, b)
    ensures Merge(db.resennas.rows[id].rec, b) != db.resennas.rows[id].rec ==> UpdateResenna(db, id, b).db != db
  {
    var o := UpdateResenna(db, id, b);
    var m := Merge(db.resennas.rows[id].rec, b);
    assert Store.Visible(o.db.resennas) == Store.Visible(db.resennas)[id := m];
    if m != db.resennas.rows[id].rec {
      assert Store.Visible(o.db.resennas)[id] != Store.Visible(db.resennas)[id];
    }
  }

  /** A rating sent as `null` is refused, unlike a missing one, which keeps the stored rating. */
  lemma NullRatingRefused(db: Db, id: int, d: Field<string>, u: Field<int>)
    ensures UpdateResenna(db, id, ResennaBody(d, Null, u)) == Outcome(BadRequest, db)
  {
  }
}
