/**
 * The account entity of the parcialtres tree: its fields, the default of `activo`, the
 * Bean Validation constraints as a set of violations, and the column definitions the
 * database enforces on insert.
 */
module ParcialtresUsuario {

  import opened Wrappers
  import opened JavaText

  /** Every field is a nullable Java object; the creation timestamp is not modelled. */
  datatype Usuario = Usuario(
    id: Option<int>,
    username: Option<string>,
    password: Option<string>,
    email: Option<string>,
    rol: Option<string>,
    direccion: Option<string>,
    metodoPago: Option<string>,
    activo: Option<bool>)

  /** The no-argument constructor: everything null except `activo`, which starts true. */
  function NewUsuario(): Usuario {
    Usuario(None, None, None, None, None, None, None, Some(true))
  }

  // ---------------------------------------------------------------------------
  // Bean Validation

  datatype Violation = UsernameBlank | UsernameSize | PasswordBlank | EmailBlank | EmailInvalid | RolBlank

  /** The message each constraint reports. */
  function Message(v: Violation): string {
    match v
    case UsernameBlank => "El nombre de usuario es obligatorio"
    case UsernameSize => "El nombre de usuario debe tener entre 3 y 50 caracteres"
    case PasswordBlank => "La contraseña es obligatoria"
    case EmailBlank => "El email es obligatorio"
    case EmailInvalid => "El email debe ser válido"
    case RolBlank => "El rol es obligatorio"
  }

  const UsernameMinLength := 3
  const UsernameMaxLength := 50

  /** @NotBlank as Hibernate Validator checks it: not null, and something is left after
      String.trim(). */
  predicate NotBlank(s: Option<string>) {
    s.Some? && |Trim(s.value)| > 0
  }

  /** A string with a character above the space, which is what @NotBlank asks of a
      non-null value. */
  predicate HasVisibleChar(s: string) {
    exists i :: 0 <= i < |s| && !AtMostSpace(s[i])
  }

  /** @NotBlank accepts exactly the non-null values with a character above the space:
      control characters alone are blank, Unicode spaces are not. */
  lemma NotBlankIffVisible(s: Option<string>)
    ensures NotBlank(s) <==> s.Some? && HasVisibleChar(s.value)
  {
    if s.Some? {
      TrimIsEmptyIffAllAtMostSpace(s.value);
    }
  }

  /** @Size(min, max): null is accepted; otherwise the length is in range. */
  predicate SizeWithin(s: Option<string>, min: nat, max: nat) {
    s.None? || min <= |s.value| <= max
  }

  /** @Email: null and the empty string are accepted; anything else must be a
      well-formed address, which `isEmail` decides. */
  predicate EmailAccepted(s: Option<string>, isEmail: string -> bool) {
    s.None? || s.value == "" || isEmail(s.value)
  }

  /** The violations to report, given whether each constraint holds, in the order the
      constraints are declared. */
  function Report(usernameNotBlank: bool, usernameSize: bool, passwordNotBlank: bool,
                  emailNotBlank: bool, emailValid: bool, rolNotBlank: bool): (r: set<Violation>)
    ensures r == {} <==> usernameNotBlank && usernameSize && passwordNotBlank && emailNotBlank && emailValid && rolNotBlank
    ensures UsernameBlank in r <==> !usernameNotBlank
    ensures UsernameSize in r <==> !usernameSize
    ensures PasswordBlank in r <==> !passwordNotBlank
    ensures EmailBlank in r <==> !emailNotBlank
    ensures EmailInvalid in r <==> !emailValid
    ensures RolBlank in r <==> !rolNotBlank
  {
    (if usernameNotBlank then {} else {UsernameBlank})
      + (if usernameSize then {} else {UsernameSize})
      + (if passwordNotBlank then {} else {PasswordBlank})
      + (if emailNotBlank then {} else {EmailBlank})
      + (if emailValid then {} else {EmailInvalid})
      + (if rolNotBlank then {} else {RolBlank})
  }

  /** Every constraint that `u` breaks; validation reports all of them at once. */
  function Violations(u: Usuario, isEmail: string -> bool): (r: set<Violation>)
    ensures r == {} <==> IsValid(u, isEmail)
    ensures UsernameBlank in r <==> !NotBlank(u.username)
    ensures UsernameSize in r <==> !SizeWithin(u.username, UsernameMinLength, UsernameMaxLength)
    ensures PasswordBlank in r <==> !NotBlank(u.password)
    ensures EmailBlank in r <==> !NotBlank(u.email)
    ensures EmailInvalid in r <==> !EmailAccepted(u.email, isEmail)
    ensures RolBlank in r <==> !NotBlank(u.rol)
    ensures UsernameSize in r ==> u.username.Some? && !(UsernameMinLength <= |u.username.value| <= UsernameMaxLength)
    ensures EmailInvalid in r ==> u.email.Some? && u.email.value != "" && !isEmail(u.email.value)
  {
    ConstraintsMeanValid(u, isEmail);
    Report(NotBlank(u.username), SizeWithin(u.username, UsernameMinLength, UsernameMaxLength),
      NotBlank(u.password), NotBlank(u.email), EmailAccepted(u.email, isEmail), NotBlank(u.rol))
  }

  /** Every constraint holds, one annotation at a time. */
  predicate PassesConstraints(u: Usuario, isEmail: string -> bool) {
    && NotBlank(u.username) && SizeWithin(u.username, UsernameMinLength, UsernameMaxLength)
    && NotBlank(u.password) && NotBlank(u.email) && EmailAccepted(u.email, isEmail)
    && NotBlank(u.rol)
  }

  lemma ConstraintsMeanValid(u: Usuario, isEmail: string -> bool)
    ensures PassesConstraints(u, isEmail) <==> IsValid(u, isEmail)
  {
    NotBlankIffVisible(u.username);
    NotBlankIffVisible(u.password);
    NotBlankIffVisible(u.email);
    NotBlankIffVisible(u.rol);
  }

  /** The account as the constraints describe it: a username of 3 to 50 characters, a
      password, a well-formed email and a role, each with a character above the space. */
  predicate IsValid(u: Usuario, isEmail: string -> bool) {
    && u.username.Some? && HasVisibleChar(u.username.value)
    && UsernameMinLength <= |u.username.value| <= UsernameMaxLength
    && u.password.Some? && HasVisibleChar(u.password.value)
    && u.email.Some? && HasVisibleChar(u.email.value) && isEmail(u.email.value)
    && u.rol.Some? && HasVisibleChar(u.rol.value)
  }

  /** Each violation is reported with its own message. */
  lemma MessagesIdentifyViolations(v1: Violation, v2: Violation)
    ensures Message(v1) == Message(v2) <==> v1 == v2
  {
  }

  // ---------------------------------------------------------------------------
  // Columns

  /** Length of a string column without an explicit `length`. */
  const DefaultColumnLength := 255

  predicate FitsColumn(s: Option<string>, nullable: bool, length: nat) {
    if s.None? then nullable else |s.value| <= length
  }

  /** What the table accepts on insert: the non-null columns are set and every string
      fits its declared length. */
  predicate FitsColumns(u: Usuario) {
    && FitsColumn(u.username, false, 50)
    && FitsColumn(u.password, false, DefaultColumnLength)
    && FitsColumn(u.email, false, DefaultColumnLength)
    && FitsColumn(u.rol, false, 20)
    && FitsColumn(u.direccion, true, 200)
    && FitsColumn(u.metodoPago, true, 50)
    && u.activo.Some?
  }

  /** A fresh account has `activo` true and breaks exactly the four not-blank
      constraints: the size and email checks accept null. */
  lemma NewUsuarioDefaults(isEmail: string -> bool)
    ensures NewUsuario().activo == Some(true)
    ensures Violations(NewUsuario(), isEmail) == {UsernameBlank, PasswordBlank, EmailBlank, RolBlank}
  {
  }

  /** A username that passes validation fits its 50-character column. */
  lemma ValidUsernameFitsColumn(u: Usuario, isEmail: string -> bool)
    requires Violations(u, isEmail) == {}
    ensures FitsColumn(u.username, false, 50)
    ensures u.password.Some? && u.email.Some? && u.rol.Some?
  {
  }

  /** Validation only asks the role to be non-blank: any non-blank role keeps a valid
      account valid, while one longer than 20 characters no longer fits its column. */
  lemma ValidationLeavesRolUnbounded(u: Usuario, isEmail: string -> bool, rol: string)
    requires Violations(u, isEmail) == {}
    requires HasVisibleChar(rol)
    ensures Violations(u.(rol := Some(rol)), isEmail) == {}
    ensures |rol| > 20 ==> !FitsColumns(u.(rol := Some(rol)))
  {
    assert IsValid(u.(rol := Some(rol)), isEmail);
  }
}
