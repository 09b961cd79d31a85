/** The `usuario` table. */
module UsuarioModel {

  /**
   * A user row: every column is NOT NULL, `nombreUsuario` carries a unique index
   * and `email` the `isEmail` validator.
   */
  datatype Usuario = Usuario(nombreUsuario: string, email: string, contrasenna: string)
  {
    /** The controllers' stronger demand: no column is empty. */
    predicate Complete() {
      nombreUsuario != "" && email != "" && contrasenna != ""
    }
  }
}
