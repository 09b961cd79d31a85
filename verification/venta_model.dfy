/** The `venta` table: one offer of a card by a seller, sold once a buyer is set. */
module VentaModel {
  import opened Wrappers

  /** `precio_venta` is DECIMAL(10,2), held here in cents; its validator demands at least 0.01. */
  const MinPriceCents: int := 1
  /** DECIMAL(10,2) holds at most 99 999 999.99; Postgres refuses anything larger. */
  const PriceBoundCents: int := 10_000_000_000

  /**
   * A sale row: card and seller references are NOT NULL, the buyer reference and
   * the sale date are nullable. Dates are epoch milliseconds.
   */
  datatype Venta = Venta(
    idCarta: int,
    vendedor: int,
    comprador: Option<int>,
    precio: int,
    fecha: Option<int>)
  {
    /** An open offer: nobody has bought it yet. */
    predicate Listed() {
      comprador.None?
    }

    /** A completed sale: a buyer is recorded. */
    predicate Sold() {
      comprador.Some?
    }
  }

  /** What the column and its `min` validator accept. */
  predicate PriceValid(cents: int) {
    MinPriceCents <= cents < PriceBoundCents
  }
}
