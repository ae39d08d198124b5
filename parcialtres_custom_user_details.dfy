/**
 * CustomUserDetails of the parcialtres tree: a copy of the account's fields taken when
 * the principal is built, presented to Spring Security with the email as login name,
 * "ROLE_" + rol as its only authority and `activo` as the enabled flag.
 */
module ParcialtresCustomUserDetails {

  import opened Wrappers
  import opened JavaText
  import opened ParcialtresUsuario

  const RolePrefix := "ROLE_"

  /** Java's string concatenation writes a null reference as "null". */
  function JavaConcatText(s: Option<string>): string {
    if s.Some? then s.value else "null"
  }

  datatype CustomUserDetails = CustomUserDetails(
    id: Option<int>,
    email: Option<string>,
    username: Option<string>,
    password: Option<string>,
    rol: Option<string>,
    activo: Option<bool>)
  {
    /** getAuthorities: the single authority "ROLE_" followed by the role exactly as
        stored, with no change of case. */
    function Authorities(): (r: seq<string>)
      ensures |r| == 1 && |r[0]| >= |RolePrefix| && r[0][..|RolePrefix|] == RolePrefix
      ensures rol.Some? ==> r[0][|RolePrefix|..] == rol.value
      ensures rol.None? ==> r[0] == RolePrefix + "null"
    {
      [RolePrefix + JavaConcatText(rol)]
    }

    function Password(): Option<string> { password }

    /** getUsername: the login name is the email, not the username field. */
    function Username(): Option<string> { email }

    function IsAccountNonExpired(): bool { true }

    function IsAccountNonLocked(): bool { true }

    function IsCredentialsNonExpired(): bool { true }

    /** isEnabled unboxes `activo`; a null value would throw, so it must be set. */
    function IsEnabled(): bool
      requires activo.Some?
    {
      activo.value
    }
  }

  /** The constructor: copies id, email, username, password, rol and activo. */
  function FromUsuario(u: Usuario): (d: CustomUserDetails)
    ensures d.id == u.id && d.email == u.email && d.username == u.username
    ensures d.password == u.password && d.rol == u.rol && d.activo == u.activo
  {
    CustomUserDetails(u.id, u.email, u.username, u.password, u.rol, u.activo)
  }

  /** The principal answers with the account's own email and password; its flags are
      all set except possibly enabled, which is the account's `activo`. */
  lemma PrincipalReflectsAccount(u: Usuario)
    requires u.activo.Some?
    ensures FromUsuario(u).Username() == u.email && FromUsuario(u).Password() == u.password
    ensures FromUsuario(u).IsAccountNonExpired() && FromUsuario(u).IsAccountNonLocked()
    ensures FromUsuario(u).IsCredentialsNonExpired()
    ensures FromUsuario(u).IsEnabled() <==> u.activo == Some(true)
  {
  }

  /** An account whose `activo` was left at its default is enabled. */
  lemma DefaultAccountIsEnabled(u: Usuario)
    requires u.activo == NewUsuario().activo
    ensures FromUsuario(u).IsEnabled()
  {
  }

  /** Every account the table accepts yields a principal whose enabled flag is defined. */
  lemma StoredAccountHasEnabledFlag(u: Usuario)
    requires FitsColumns(u)
    ensures FromUsuario(u).activo.Some?
  {
  }

  /** The authority tells roles apart exactly, case included: two accounts with roles
      get the same authority only when the roles are the same string. */
  lemma AuthorityIdentifiesRoleExactly(d1: CustomUserDetails, d2: CustomUserDetails)
    requires d1.rol.Some? && d2.rol.Some?
    ensures d1.Authorities() == d2.Authorities() <==> d1.rol == d2.rol
  {
    if d1.Authorities() == d2.Authorities() {
      assert d1.rol.value == d1.Authorities()[0][|RolePrefix|..];
    }
  }

  /** A valid account's authority is "ROLE_" followed by its non-blank role. */
  lemma ValidAccountHasRoleAuthority(u: Usuario, isEmail: string -> bool)
    requires Violations(u, isEmail) == {}
    ensures |FromUsuario(u).Authorities()[0]| > |RolePrefix|
    ensures HasVisibleChar(FromUsuario(u).Authorities()[0][|RolePrefix|..])
  {
  }
}
