/** The `resenna` table: a user's review with a rating. */
module ResennaModel {

  /** The `min` and `max` validators on `valoracion`. */
  const MinRating: int := 1
  const MaxRating: int := 5

  /** A review row: every column is NOT NULL; `idUsuario` references `usuarios`. */
  datatype Resenna = Resenna(descripcion: string, valoracion: int, idUsuario: int)

  predicate RatingValid(v: int) {
    MinRating <= v <= MaxRating
  }
}
