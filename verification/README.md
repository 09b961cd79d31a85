# Card marketplace API — record rules, keyed store and request handlers

This project models the record-level rules of a trading-card marketplace API
built with Express and Sequelize on Postgres. Four tables hold cards (`carta`),
sales (`venta`), reviews (`resenna`) and users (`usuario`). Services read and
write these tables. Controllers validate request bodies and choose the HTTP
status.

The model has three layers.

- **Tables** (`store.dfy`, `database.dfy`, the `*_model.dfy` files). A table is a
  `map<int, Row>` keyed by an auto-incremented id. Each row has a soft-delete
  marker (Sequelize `paranoid`). Reads skip marked rows. Rows are never
  physically removed, so the database's foreign keys and the unique username
  index keep seeing soft-deleted rows. `Database.Sound` states what the database
  and the model validators guarantee:
  - foreign keys hold;
  - a price is at least 0.01 and fits DECIMAL(10,2);
  - a rating is in 1..5;
  - usernames are unique;
  - every email passes `isEmail`.

  `Database.Curated` states what the controllers guarantee on top of that:
  - mandatory text fields are non-empty;
  - live users have distinct emails.
- **Services** (`*_service.dfy`). Find, create, update and delete work on that
  map. An absent id gives null and changes nothing. The joins drop a sale whose
  card or seller is soft-deleted, and a review whose author is soft-deleted. A
  refused write is `Rejected`, which is what the service throws.
- **Controllers** (`*_controller.dfy`). Each handler is a pure function from the
  state and the request body to `(status, new state)`. Body properties are
  `Field<T>`: `Absent` (`undefined`), `Null`, or `Given(v)`. JavaScript
  truthiness is written out: `undefined`, `null`, `""` and `0` are falsy. The
  `||` merges and the review's `!== undefined` test follow the code exactly.

`api.dfy` sends each mutating route to its controller. `Api.Run` folds any
sequence of requests and proves three things for every such sequence:
- consistency is kept;
- no row disappears;
- a sold sale never becomes a listing again.

Consequences proved here:
- an update never clears a field;
- a body with only buyer and date gets 400;
- the review update is not atomic;
- the username and email conflict checks exclude the user being updated;
- every 400 and 404 leaves the state unchanged, apart from the non-atomic
  review case.

## Model

| member | source | states |
|---|---|---|
| Store.Visible | models/carta.js:36-39 | a paranoid table's reads show exactly the rows not soft-deleted, with their stored records |
| Store.Find | services/cartaService.js:22-24 | `findOne` by id yields the record iff the id is visible, else null |
| Store.Insert | models/carta.js:7-11 | `create` stores the record under the sequence's next id, a fresh positive key; all other rows are kept |
| Store.Put | services/cartaService.js:48-52 | updating a found row replaces that key's record only; the set of rows and the sequence are unchanged |
| Store.SoftDelete | services/cartaService.js:64-68 | `destroy` on a paranoid model hides the id from reads but keeps the row and its record |
| CartaService.GetAllCartas | services/cartaService.js:8-15 | returns every card that is not soft-deleted, keyed by id |
| CartaService.GetCartaById | services/cartaService.js:20-29 | the card iff it is live, else null |
| CartaService.CreateCarta | services/cartaService.js:34-41 | stores the data unchanged under a fresh id; only the card table changes |
| CartaService.UpdateCarta | services/cartaService.js:46-57 | absent id: null and no change; present id: only that card replaced by the data |
| CartaService.DeleteCarta | services/cartaService.js:62-73 | absent id: null and no change; present id: that card alone soft-deleted and returned |
| VentaService.Join | services/ventaService.js:12-29 | a sale joins iff its card and its seller are live (inner joins); the buyer is loaded iff set and live (left join) |
| VentaService.GetAllVentas | services/ventaService.js:10-35 | every live sale whose card and seller join, with or without a buyer |
| VentaService.GetVentaById | services/ventaService.js:40-66 | null exactly when the sale is absent or does not join, else the same view as the full listing |
| VentaService.CreateVenta | services/ventaService.js:71-78 | refused iff a foreign key or the price check fails; otherwise the sale is stored unchanged under a fresh id |
| VentaService.UpdateVenta | services/ventaService.js:83-94 | absent id: null and no change; else refused iff the database rejects the data, otherwise only that sale replaced |
| VentaService.DeleteVenta | services/ventaService.js:99-110 | absent id: null and no change; else that sale alone soft-deleted, with no join check |
| ResennaService.Join | services/resennaService.js:11-16 | a review joins iff its author is a live user |
| ResennaService.GetAllResennas | services/resennaService.js:9-21 | every live review whose author is live, each entry holding the review and its author's record (required include) |
| ResennaService.GetResennaById | services/resennaService.js:26-39 | null when the review or its author is absent, else the listing's entry: the review with its author's record |
| ResennaService.CreateResenna | services/resennaService.js:44-51 | refused iff rating or author reference fails; otherwise stored unchanged under a fresh id |
| ResennaService.UpdateResenna | services/resennaService.js:56-67 | absent id: null and no change; else refused iff the database rejects the data, otherwise only that review replaced |
| ResennaService.DeleteResenna | services/resennaService.js:72-83 | absent id: null and no change; else that review alone soft-deleted |
| UsuarioService.GetUsuarioById | services/usuarioService.js:26-34 | the live user with exactly their live reviews (left join), else null |
| UsuarioService.GetAllUsuarios | services/usuarioService.js:9-21 | every live user, with or without reviews (left join), each entry equal to the by-id read |
| UsuarioService.UsuarioExists | services/usuarioService.js:36-39 | true iff some visible user has that username |
| UsuarioService.EmailExists | services/usuarioService.js:41-44 | true iff some visible user has that email |
| UsuarioService.GetUsuarioByNombreUsuario | services/usuarioService.js:92-95 | a live user with that username iff one exists, else null |
| UsuarioService.ByNombreIsTheOne | services/usuarioService.js:92-95 | under the unique index the lookup by username returns the one live user holding it |
| UsuarioService.InsertUsuario | models/usuario.js:12-23 | the insert is refused iff another row, soft-deleted or not, has the username or the email fails `isEmail` |
| UsuarioService.CreateUsuarioAsWritten | services/usuarioService.js:49-55 | never throws: a refused insert yields undefined and no change |
| UsuarioService.CreateUsuario | services/usuarioService.js:49-55 | corrected service: a refused insert is reported as a refusal (see Findings) |
| UsuarioService.UpdateUsuario | services/usuarioService.js:60-72 | absent id: null and no change; else refused iff the database rejects the data, otherwise only that user replaced |
| UsuarioService.DeleteUsuario | services/usuarioService.js:77-90 | absent id: null and no change; else the user soft-deleted and returned |
| Database.VentaAccepted | models/venta.js:14-47 | a sale is written iff its card, seller and any buyer reference existing rows (soft-deleted ones included) and its price is at least 0.01 and fits DECIMAL(10,2) |
| Database.ResennaAccepted | models/resenna.js:15-31 | a review is written iff its rating is in 1..5 and its author references an existing row |
| Database.UsuarioAccepted | models/usuario.js:12-23 | a user is written iff no other row, soft-deleted or not, holds the username and the email passes `isEmail` |
| Database.Sound | models/venta.js:14-51 | every stored row, soft-deleted or not, satisfies its table's constraints (the columns of resenna.js and usuario.js likewise) and every id sequence is above its keys |
| Database.Curated | controllers/usuarioController.js:51-70 | what the handlers' checks keep beyond the database: complete users and no two live users with one email (these lines), complete cards (cartaController.js lines 47-49) and non-empty review descriptions (resennaController.js line 48) |
| CartaController.NewCarta | controllers/cartaController.js:52 | each column of the created card is the body property of the same name; description and archetype are NULL exactly when the body omits them or sends null |
| CartaController.Merge | controllers/cartaController.js:80-87 | `new \|\| prior` per column: a truthy property is stored, an unsupplied or falsy one keeps the column, so no column is ever cleared |
| CartaController.GetCartas | controllers/cartaController.js:8-22 | always 200 with exactly the live cards, an empty list when there are none |
| CartaController.GetCartaById | controllers/cartaController.js:27-38 | 404 iff the card is absent or soft-deleted, else 200 with it |
| CartaController.CreateCarta | controllers/cartaController.js:43-58 | 400 and no change iff nombre, tipo, raza or imagen is falsy; else 201 with exactly the body's card stored |
| CartaController.UpdateCarta | controllers/cartaController.js:63-96 | 400 iff no mandatory property is truthy, even with descripcion or arquetipo; 404 iff unknown; both leave the state unchanged; else 200 with the merge stored |
| CartaController.DeleteCarta | controllers/cartaController.js:101-114 | 204 iff a live card was soft-deleted, else 404 and no change |
| CartaController.CreateThenGet | controllers/cartaController.js:43-58 | a created card reads back under its new id exactly as sent; every other id reads as before |
| CartaController.UpdateThenGet | controllers/cartaController.js:80-91 | an updated card reads back merged, others unchanged, and a complete card stays complete |
| CartaController.DeleteThenGet | controllers/cartaController.js:101-108 | a deleted card reads as 404, is absent from the listing, and a second delete is 404 |
| VentaController.NewVenta | controllers/ventaController.js:52 | card, seller, price, buyer and date are the body properties of the same name; the sale is a listing iff no buyer was sent, and buyer and date are taken independently |
| VentaController.Merge | controllers/ventaController.js:80-86 | `new \|\| prior` per column: a truthy property is stored (a truthy buyer makes the sale sold), an unsupplied or falsy one keeps the column, so a set buyer or date is never cleared |
| VentaController.GetVentas | controllers/ventaController.js:8-22 | always 200 with exactly the joined sales the service lists: the live sales whose card and seller are live |
| VentaController.GetVentaById | controllers/ventaController.js:27-38 | 404 iff the sale is absent or its card or seller is not live, else 200 with the service's joined view: the sale, its card, its seller and its buyer if live |
| VentaController.CreateVenta | controllers/ventaController.js:43-58 | 400 iff card, seller or price is falsy (so price 0 is refused); 500 iff the database refuses; both unchanged; else 201 with the sale stored |
| VentaController.UpdateVenta | controllers/ventaController.js:63-95 | 400 iff none of card, seller, price is truthy; 404 iff the sale does not read; 500 iff the database refuses the merge; all unchanged; else 200 with the merge stored |
| VentaController.DeleteVenta | controllers/ventaController.js:100-113 | 204 iff a live sale was soft-deleted, else 404 and no change |
| VentaController.UpdateRecordsPurchase | controllers/ventaController.js:66-89 | a truthy buyer sent with a truthy card, seller or price, on a sale that reads and with a merge the database accepts, answers 200 and stores the sale sold to that buyer |
| VentaController.PurchaseAloneRejected | controllers/ventaController.js:68-70 | a body carrying only buyer and date is answered 400 with no change |
| VentaController.UpdateKeepsSold | controllers/ventaController.js:83 | after any update, every sale that had a buyer still has one |
| VentaController.CreateIgnoresDate | controllers/ventaController.js:44-52 | the create status does not depend on the date, so nothing ties a date to a buyer |
| VentaController.CreateThenGet | controllers/ventaController.js:47-54 | a created sale with live card and seller reads back under its new id as sent |
| ResennaController.Merge | controllers/resennaController.js:99-102 | a truthy description is stored, otherwise the old one kept; any defined rating is stored, an undefined one keeps the old; the author is kept, and a valid rating and a non-empty description stay so |
| ResennaController.GetResennas | controllers/resennaController.js:9-23 | always 200 with exactly the live reviews whose author is live, an empty list when there are none |
| ResennaController.GetResennaById | controllers/resennaController.js:28-39 | 404 iff the review or its author is absent or soft-deleted, else 200 with the review and its author |
| ResennaController.CreateResenna | controllers/resennaController.js:44-72 | 400 iff a property is falsy or the rating is outside 1..5; 404 iff the author is not live; both unchanged; else 201 with exactly the three values stored |
| ResennaController.UpdateResenna | controllers/resennaController.js:77-123 | 400 iff neither description nor a defined rating is sent or the rating is out of range; 404 without change for an unknown review; else the merge is written, and a new author is attached only if live |
| ResennaController.DeleteResenna | controllers/resennaController.js:128-140 | 204 iff a live review was soft-deleted, else 404 and no change |
| ResennaController.UpdateNotAtomic | controllers/resennaController.js:105-112 | moving a review to an unknown author answers 404 yet leaves the new description and rating stored |
| ResennaController.NullRatingRefused | controllers/resennaController.js:87-89 | a rating sent as `null` counts as 0 and is refused with 400 |
| UsuarioController.NewUsuario | controllers/usuarioController.js:72-76 | username, email and password are the three body properties, all non-empty |
| UsuarioController.GetUsuarios | controllers/usuarioController.js:7-22 | always 200 with exactly the live users and their reviews, an empty list when there are none |
| UsuarioController.GetUsuarioById | controllers/usuarioController.js:27-42 | 404 iff the user is absent or soft-deleted, else 200 with the user and their live reviews |
| UsuarioController.CreateUsuarioAsWritten | controllers/usuarioController.js:47-88 | 400 iff a property is falsy or the username or email is taken by a live user; otherwise always 201: with the user stored when the database accepts it, with nothing stored when it refuses; the state is always the corrected handler's |
| UsuarioController.CreateUsuario | controllers/usuarioController.js:47-88 | corrected handler: 400 as above, 500 and no change when the database refuses, else 201 with the user stored |
| UsuarioController.UpdateUsuario | controllers/usuarioController.js:93-141 | 400 on a falsy property or a conflict, 404 on an unknown user, 500 on refusal, all unchanged; else 200 with exactly the three columns replaced |
| UsuarioController.DeleteUsuario | controllers/usuarioController.js:146-159 | 204 iff a live user was soft-deleted, else 404 and no change |
| UsuarioController.UsernameConflictMeansOther | controllers/usuarioController.js:110-113 | the username check refuses exactly when another live user holds the name |
| UsuarioController.EmailConflictMeansOther | controllers/usuarioController.js:116-119 | with distinct live emails, the email check refuses exactly when another live user holds the email |
| UsuarioController.ResubmitOwnData | controllers/usuarioController.js:109-129 | resubmitting a user's own data is answered 200 and changes nothing visible |
| UsuarioController.CreatedWithoutUser | services/usuarioService.js:49-55 | concrete case: reusing a soft-deleted user's name gives 201 with no user stored as written, 500 when corrected |
| Invariants.CreateCartaPreserves | controllers/cartaController.js:47-53 | createCarta keeps every card complete and the whole state consistent |
| Invariants.UpdateCartaPreserves | controllers/cartaController.js:80-90 | updateCarta keeps the state consistent |
| Invariants.DeleteCartaPreserves | controllers/cartaController.js:104 | deleteCarta keeps the state consistent; the sales' card references still resolve |
| Invariants.CreateVentaPreserves | controllers/ventaController.js:47-53 | createVenta only stores sales the database accepts |
| Invariants.UpdateVentaPreserves | controllers/ventaController.js:80-89 | updateVenta keeps every sale accepted |
| Invariants.DeleteVentaPreserves | controllers/ventaController.js:103 | deleteVenta keeps the state consistent |
| Invariants.CreateResennaPreserves | controllers/resennaController.js:48-67 | createResenna stores only described, in-range reviews of existing users |
| Invariants.UpdateResennaPreserves | controllers/resennaController.js:99-115 | both writes of updateResenna keep the state consistent |
| Invariants.DeleteResennaPreserves | controllers/resennaController.js:131 | deleteResenna keeps the state consistent |
| Invariants.CreateUsuarioPreserves | controllers/usuarioController.js:58-80 | createUsuario keeps usernames unique and live emails distinct |
| Invariants.UpdateUsuarioPreserves | controllers/usuarioController.js:110-129 | updateUsuario keeps usernames unique and live emails distinct |
| Invariants.DeleteUsuarioPreserves | controllers/usuarioController.js:149 | deleteUsuario keeps the state consistent; reviews and sales still reference existing rows |
| Api.Handle | routes/ventaRouts.js:81-146 | its body sends each mutating route to its controller, as the four route files register them; its contract states that no request removes a row or moves a sequence back, and that a 400, 404 or 500 leaves the state unchanged except for the review update |
| Api.HandleKeepsSold | controllers/ventaController.js:83 | no request takes the buyer off a sold sale |
| Api.HandlePreserves | models/venta.js:14-51 | every request keeps the database's constraints and the controllers' guarantees |
| Api.Run | controllers/ventaController.js:80-89 | across any request sequence: consistency kept, no row removed, and once sold a sale stays sold |
| Api.DeletedCardHidesItsSales | services/ventaService.js:14-18 | soft-deleting a card hides exactly its sales from the sale reads; others read as before |
| Api.DeletedUserHidesTheirs | services/ventaService.js:19-28 | soft-deleting a user hides exactly their reviews and offered sales; sales they bought read with no buyer |

## Left out

- Transport is not modelled: Express routing, Swagger comments, JSON parsing, logging and CORS. The JWT `authenticate` middleware on the review routes is a foreign library call, and its 403 path is left out too.
- Row ids are unbounded integers. The INTEGER autoIncrement columns stop at 2^31-1; past that an insert fails and the handler answers 500, which `Store.Insert` does not model.
- Route paths are not modelled, only which handler a request reaches. The card delete route is registered as `/carta/deleteCarta:id`, without a slash before the id; the model takes the id as given.
- `findAll` returns rows in database order; the model's reads are maps keyed by id and carry no order.
- Store failures other than constraint refusals are not modelled: lost connections, timeouts, and a non-numeric `:id` that Postgres cannot cast. These surface as 500.
- Request properties carry the type of their column. A string sent for a number column, a fractional rating, or a price that is not a whole number of cents is not modelled. Prices are integer cents, as DECIMAL(10,2) stores them; dates are integer timestamps.
- VARCHAR(255) length limits on string columns are not modelled.
- `isEmail` is a library predicate. It is a parameter of the user operations.
- Constraint checks are applied to the whole record on every write. Sequelize validates only the columns that changed. The two agree whenever the stored rows already satisfy the constraints, which `Database.Sound` guarantees.
- A refused insert changes nothing in the model. Postgres still consumes a sequence value, so later ids can skip numbers.
- Concurrency between requests is not modelled. Each request runs alone.
- Response bodies of the mutating handlers are not modelled; only status and state are.
- `createdAt`, `updatedAt` and the `deletedAt` timestamp value are not modelled; only the deleted marker is.
- ON DELETE CASCADE and SET NULL are not modelled as state changes. Every delete here is a soft delete, so they never fire. Their visible effect comes from the joins, which `Api.DeletedCardHidesItsSales` and `Api.DeletedUserHidesTheirs` state.
- ResennaController.UpdateResenna: the 500 path is stated only as "happens only when the stored rating is already out of range". Under `Database.Sound` that never happens.
- Api.Handle uses the corrected `UsuarioController.CreateUsuario`, not the as-written one. The two differ only in the status code: `UsuarioController.CreateUsuarioAsWritten` ensures it reaches the same state as the corrected handler.

## Findings

| source | as written | input that shows it | evidently intended | confidence | as-written member | corrected member |
|---|---|---|---|---|---|---|
| services/usuarioService.js:49-55 | the service catches a refused insert and resolves to `undefined`, so the controller answers 201 Created with no user stored | a soft-deleted user "ana" exists; POST a new user named "ana": `usuarioExists` ignores the deleted row, the unique index refuses the insert, the answer is 201 | rethrow like every other service, so the controller's catch answers 500 | medium, not executed | UsuarioController.CreateUsuarioAsWritten | UsuarioController.CreateUsuario |
