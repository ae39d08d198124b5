/**
 * The account entity of the proaula nomina tree, as far as the password migration and
 * the user-details service use it: an identity, the login email and the stored
 * password (null when never set).  Its other columns are not read by the core.
 */
module ProaulaUsuario {

  import opened Wrappers

  class Usuario {
    var id: int
    var email: string
    var password: Option<string>

    constructor (id: int, email: string, password: Option<string>)
      ensures this.id == id && this.email == email && this.password == password
    {
      this.id := id;
      this.email := email;
      this.password := password;
    }
  }
}
