/** The `carta` table: a catalog card. */
module CartaModel {
  import opened Wrappers

  /**
   * A card row. `nombre`, `tipo`, `raza` and `imagen` are NOT NULL, which their
   * types say; `descripcion` and `arquetipo` may be NULL. The id is the key of
   * the table holding the row.
   */
  datatype Carta = Carta(
    nombre: string,
    tipo: string,
    descripcion: Option<string>,
    raza: string,
    arquetipo: Option<string>,
    imagen: string)
  {
    /** The controllers' stronger demand: the mandatory columns are not empty either. */
    predicate Complete() {
      nombre != "" && tipo != "" && raza != "" && imagen != ""
    }
  }
}
