/**
 * The account record of the autenticacion tree and NominaUserDetails, the adapter that
 * presents it to Spring Security: one authority derived from the role, the account
 * status read as enabled / locked, and the email as the login name.
 */
module AutenticacionUserDetails {

  import opened Wrappers
  import opened JavaText

  datatype Rol = Rol(id: int, nombre: string, descripcion: Option<string>)

  /** The fields the core reads; `estado` and `rol` may be null. */
  datatype Usuario = Usuario(
    id: int,
    email: string,
    password: string,
    nombre: Option<string>,
    apellido: Option<string>,
    estado: Option<string>,
    rol: Option<Rol>)

  const RolePrefix := "ROLE_"

  /** Role name used when the account has no role. */
  const DefaultRoleName := "usuario"

  /** The authority granted to an account without a role. */
  const DefaultAuthority := "ROLE_USUARIO"

  const ActiveStatus := "activo"
  const SuspendedStatus := "suspendido"

  datatype NominaUserDetails = NominaUserDetails(usuario: Usuario) {

    /** The role's name, or "usuario" when there is no role. */
    function RoleName(): string {
      if usuario.rol.Some? then usuario.rol.value.nombre else DefaultRoleName
    }

    /** getAuthorities: a single authority, "ROLE_" followed by the role name in upper
        case. */
    function Authorities(): (r: seq<string>)
      ensures |r| == 1 && |r[0]| == |RolePrefix| + |RoleName()|
      ensures r[0][..|RolePrefix|] == RolePrefix
      ensures EqualsIgnoreCase(r[0][|RolePrefix|..], RoleName())
      ensures forall i :: |RolePrefix| <= i < |r[0]| ==> !IsAsciiLower(r[0][i])
    {
      var authority := RolePrefix + ToUpper(RoleName());
      assert authority[|RolePrefix|..] == ToUpper(RoleName());
      EqualsIgnoreCaseIffSameUpper(ToUpper(RoleName()), RoleName());
      UpperIsIdempotent(RoleName());
      [authority]
    }

    function Password(): string { usuario.password }

    /** getUsername: the login name is the account's email. */
    function Username(): string { usuario.email }

    function IsAccountNonExpired(): bool { true }

    function IsCredentialsNonExpired(): bool { true }

    /** isAccountNonLocked: locked only when the status is "suspendido" in any case;
        a null status is not locked. */
    function IsAccountNonLocked(): (r: bool)
      ensures r <==> usuario.estado.None? || ToUpper(usuario.estado.value) != "SUSPENDIDO"
    {
      StatusTestIsUpperCaseComparison(SuspendedStatus, "SUSPENDIDO", usuario.estado);
      !EqualsIgnoreCaseNullable(SuspendedStatus, usuario.estado)
    }

    /** isEnabled: enabled only when the status is "activo" in any case; a null status
        is not enabled. */
    function IsEnabled(): (r: bool)
      ensures r <==> usuario.estado.Some? && ToUpper(usuario.estado.value) == "ACTIVO"
    {
      StatusTestIsUpperCaseComparison(ActiveStatus, "ACTIVO", usuario.estado);
      EqualsIgnoreCaseNullable(ActiveStatus, usuario.estado)
    }
  }

  /** The principal gives the account's own email as login name and its stored
      password, and never reports the account or its credentials as expired. */
  lemma GettersReflectAccount(u: Usuario)
    ensures NominaUserDetails(u).Username() == u.email && NominaUserDetails(u).Password() == u.password
    ensures NominaUserDetails(u).IsAccountNonExpired() && NominaUserDetails(u).IsCredentialsNonExpired()
  {
  }

  /** `literal.equalsIgnoreCase(status)` compares the upper-case forms. */
  lemma StatusTestIsUpperCaseComparison(literal: string, upper: string, status: Option<string>)
    requires literal == ActiveStatus || literal == SuspendedStatus
    requires upper == (if literal == ActiveStatus then "ACTIVO" else "SUSPENDIDO")
    ensures EqualsIgnoreCaseNullable(literal, status) <==> status.Some? && ToUpper(status.value) == upper
  {
    assert ToUpper(literal) == upper;
    if status.Some? {
      EqualsIgnoreCaseIffSameUpper(literal, status.value);
    }
  }

  lemma UpperIsIdempotent(s: string)
    ensures ToUpper(ToUpper(s)) == ToUpper(s)
  {
    assert forall i :: 0 <= i < |s| ==> ToUpper(ToUpper(s))[i] == ToUpper(s)[i];
  }

  /** Without a role the authority is ROLE_USUARIO. */
  lemma NoRoleGivesDefaultAuthority(u: Usuario)
    requires u.rol.None?
    ensures NominaUserDetails(u).Authorities() == [DefaultAuthority]
  {
    var upper := ToUpper(DefaultRoleName);
    assert upper[0] == 'U' && upper[1] == 'S' && upper[2] == 'U' && upper[3] == 'A';
    assert upper[4] == 'R' && upper[5] == 'I' && upper[6] == 'O';
    assert upper == "USUARIO";
    assert RolePrefix + upper == DefaultAuthority;
    assert NominaUserDetails(u).Authorities()[0] == RolePrefix + upper;
  }

  /** Two roles give the same authority exactly when their names are equal ignoring
      case: the authority keeps the name and only loses its case. */
  lemma AuthorityIdentifiesRoleUpToCase(u1: Usuario, u2: Usuario)
    requires u1.rol.Some? && u2.rol.Some?
    ensures NominaUserDetails(u1).Authorities() == NominaUserDetails(u2).Authorities()
        <==> EqualsIgnoreCase(u1.rol.value.nombre, u2.rol.value.nombre)
  {
    var n1, n2 := u1.rol.value.nombre, u2.rol.value.nombre;
    var a1, a2 := NominaUserDetails(u1).Authorities()[0], NominaUserDetails(u2).Authorities()[0];
    assert a1 == RolePrefix + ToUpper(n1) && a2 == RolePrefix + ToUpper(n2);
    EqualsIgnoreCaseIffSameUpper(n1, n2);
    if a1 == a2 {
      assert ToUpper(n1) == a1[5..] == a2[5..] == ToUpper(n2);
    }
  }

  /** An enabled account is never locked, and a status that is neither "activo" nor
      "suspendido" (INACTIVO, say) is disabled but not locked. */
  lemma EnabledIsNeverLocked(u: Usuario)
    ensures NominaUserDetails(u).IsEnabled() ==> NominaUserDetails(u).IsAccountNonLocked()
    ensures u.estado == Some("INACTIVO") ==>
      !NominaUserDetails(u).IsEnabled() && NominaUserDetails(u).IsAccountNonLocked()
  {
    if u.estado.Some? {
      assert |ToUpper(u.estado.value)| == |u.estado.value|;
    }
  }
}
