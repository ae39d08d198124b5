# Authentication core of Autenticacion-base, in Dafny

This project models the authentication core of a Spring Boot application.
The repository holds three package trees, `autenticacion.demo`, `proaula.nomina` and
`parcialtres.demo`, and each has its own account record. The model covers:

- **Password migration** (`proaula.nomina`, module `ProaulaPasswordMigration`). At
  start-up every stored account is visited in order. A password that is neither null,
  nor blank, nor already in bcrypt form is overwritten, in place, with its hash.
  The bcrypt pattern `^\$2[aby]\$.{56}$` is a sequence of one-character classes with a
  whole-string matcher, and a lemma proves it accepts exactly the 60-character strings
  of that shape. `Run` works over an `array` of `Usuario` objects and may change only
  their `password` fields.
- **User lookup** (modules `EmailLookup`, `AutenticacionUserDetailsService` and
  `ProaulaUserDetailsService`). `loadUserByUsername` finds the account whose email
  equals the submitted name ignoring case and wraps it in the principal adapter.
  When none matches, it fails with "No se encontró el usuario con email: " followed by
  the input. The derived query `findByEmailIgnoreCase` returns an `Optional`, so it
  fails when two stored emails match; the model includes that outcome.
- **Principal adapters** (modules `AutenticacionUserDetails` and
  `ParcialtresCustomUserDetails`). `NominaUserDetails` grants "ROLE_" plus the upper-cased
  role name, or ROLE_USUARIO when there is no role. It is enabled only when the status
  is "activo" and locked only when it is "suspendido", both ignoring case. The
  parcialtres `CustomUserDetails` copies the entity's fields and grants "ROLE_" plus the
  role unchanged. Both use the email as the login name.
- **The parcialtres entity** (module `ParcialtresUsuario`). This covers the `activo`
  default, the Bean Validation constraints as a set of violations with an equivalent
  validity predicate, and the column definitions.
- **The security configuration** (module `AutenticacionSecurityConfig`). This covers the
  BCrypt encoder of cost 12 and the format of the hashes it writes. It also covers the
  permit list and the filter chain. The CSRF filter comes first, then logout at
  POST /logout, then form login at POST /auth/login, then authorization. The chain is a
  transition function `Step` over the live sessions. The class `SessionGate` holds
  those sessions, and its `Login`, `Logout`, `Authorize` and `Handle` methods are
  proved against `Step`. Authentication follows the order of checks of Spring's
  DAO provider: lookup, locked, disabled, account expired, password, credentials
  expired.

Java semantics that matter are written out in `JavaText`. `String.isBlank` uses the
whitespace characters of `Character.isWhitespace`. The regex `.` rejects exactly the
line terminators `\n`, `\r`, U+0085, U+2028 and U+2029. `equalsIgnoreCase` and
`toUpperCase` follow ASCII case mapping. `String.trim`, which Hibernate Validator's
`@NotBlank` applies, strips characters up to U+0020. A field that the Java code may
leave null, and whose null value the core handles, is an `Option`.

Several things are parameters:

- the password encoder: `encode(k, raw)` in the migration, where `k` is the record's
  position and stands for that call's random salt;
- BCrypt's `matches(raw, hash)`;
- the `@Email` check, `isEmail`.

## Model

| member | source | states |
|---|---|---|
| JavaText.EqualsIgnoreCaseIffSameUpper | src/main/java/com/autenticacion/demo/security/NominaUserDetails.java:45 | `equalsIgnoreCase` holds exactly when both strings have the same upper-case form |
| JavaText.EqualsIgnoreCaseIsEquivalence | src/main/java/com/autenticacion/demo/repository/UsuarioRepository.java:11 | case-insensitive equality is reflexive, symmetric and transitive, so lookup by it is well defined |
| JavaText.TrimStart | src/main/java/com/parcialtres/demo/entity/Usuario.java:25 | the result is a suffix of the input; every removed character is at most U+0020 and the first kept one is not |
| JavaText.TrimEnd | src/main/java/com/parcialtres/demo/entity/Usuario.java:25 | the result is a prefix of the input; every removed character is at most U+0020 and the last kept one is not |
| JavaText.TrimIsEmptyIffAllAtMostSpace | src/main/java/com/parcialtres/demo/entity/Usuario.java:25 | `trim()` leaves nothing exactly when every character is at most U+0020 |
| EmailLookup.MatchingIndices | src/main/java/com/autenticacion/demo/repository/UsuarioRepository.java:11 | the positions whose email equals the key ignoring case, all of them and only them, in increasing order |
| EmailLookup.FindByEmailIgnoreCase | src/main/java/com/autenticacion/demo/repository/UsuarioRepository.java:11 | no match exactly when no email equals the key ignoring case; `Unique(i)` exactly when `i` is the only match; `NonUnique` exactly when two positions match |
| EmailLookup.MatchDependsOnKeyUpToCase | src/main/java/com/autenticacion/demo/repository/UsuarioRepository.java:11 | an email matches a key exactly when it matches every key equal to it ignoring case |
| EmailLookup.MatchingIndicesIgnoreCase | src/main/java/com/autenticacion/demo/security/CustomUserDetailsService.java:28 | keys equal ignoring case match the same positions |
| EmailLookup.LookupIgnoresCase | src/main/java/com/autenticacion/demo/security/CustomUserDetailsService.java:28 | keys equal ignoring case give the same matches and the same lookup result |
| EmailLookup.DistinctStoreFindsEachEmail | src/main/java/com/autenticacion/demo/repository/UsuarioRepository.java:11 | when stored emails are distinct ignoring case, the lookup is never ambiguous and any spelling of a stored email finds its position |
| ProaulaUsuario.Usuario.constructor | src/main/java/com/proaula/nomina/config/PasswordMigrationRunner.java:29-34 | an entity holds the id, email and nullable password the runner reads and writes |
| ProaulaPasswordMigration.Repeat | src/main/java/com/proaula/nomina/config/PasswordMigrationRunner.java:16 | `.{56}` is 56 copies of the any-but-line-terminator class |
| ProaulaPasswordMigration.FullMatchIsPointwise | src/main/java/com/proaula/nomina/config/PasswordMigrationRunner.java:42 | `matches()` with single-character elements succeeds exactly when lengths agree and each character fits its element |
| ProaulaPasswordMigration.BcryptPatternAcceptsExactlyShaped | src/main/java/com/proaula/nomina/config/PasswordMigrationRunner.java:16 | the pattern accepts exactly 60-character strings of the form `$2`, one of a/b/y, `$`, then 56 non-line-terminators |
| ProaulaPasswordMigration.NeedsEncoding | src/main/java/com/proaula/nomina/config/PasswordMigrationRunner.java:38-43 | false for null and blank passwords; for any other password, true exactly when it is not bcrypt-shaped |
| ProaulaPasswordMigration.MigrationIsIdempotent | src/main/java/com/proaula/nomina/config/PasswordMigrationRunner.java:29-43 | with an encoder that emits bcrypt hashes, a migrated password never needs encoding again, so a second pass keeps it |
| ProaulaPasswordMigration.Run | src/main/java/com/proaula/nomina/config/PasswordMigrationRunner.java:28-36 | same entities in the same order; each password becomes its encoding exactly when it needed one and is kept otherwise; ids and emails unchanged; with a bcrypt encoder no account needs encoding afterwards |
| ProaulaUserDetailsService.Emails | src/main/java/com/proaula/nomina/repository/UsuarioRepository.java:10 | the stored emails position by position |
| ProaulaUserDetailsService.LoadUserByUsername | src/main/java/com/proaula/nomina/security/CustomUserDetailsService.java:25-34 | success exactly when one stored email equals the input ignoring case, and then the adapter of that entity; not found, with the prefixed message, exactly when none matches; an ambiguous match is an error; the store is only read |
| ProaulaUserDetailsService.LoadIgnoresCaseOfInput | src/main/java/com/proaula/nomina/security/CustomUserDetailsService.java:26-33 | inputs equal ignoring case load the same principal, or both fail |
| ProaulaUserDetailsService.DistinctStoreLoadsEachEntity | src/main/java/com/proaula/nomina/security/CustomUserDetailsService.java:26-28 | with case-distinct emails, any spelling of a stored email loads that entity |
| AutenticacionUserDetails.NominaUserDetails.Authorities | src/main/java/com/autenticacion/demo/security/NominaUserDetails.java:22-26 | exactly one authority: "ROLE_" then the role name (or "usuario") in upper case, equal to it ignoring case and with no lower-case letter |
| AutenticacionUserDetails.NominaUserDetails.IsAccountNonLocked | src/main/java/com/autenticacion/demo/security/NominaUserDetails.java:43-46 | locked exactly when the status is non-null and upper-cases to SUSPENDIDO; a null status is not locked |
| AutenticacionUserDetails.NominaUserDetails.IsEnabled | src/main/java/com/autenticacion/demo/security/NominaUserDetails.java:53-56 | enabled exactly when the status is non-null and upper-cases to ACTIVO |
| AutenticacionUserDetails.GettersReflectAccount | src/main/java/com/autenticacion/demo/security/NominaUserDetails.java:28-51 | `Username` is the account's email and `Password` its stored hash, unchanged; `IsAccountNonExpired` and `IsCredentialsNonExpired` are always true |
| AutenticacionUserDetails.StatusTestIsUpperCaseComparison | src/main/java/com/autenticacion/demo/security/NominaUserDetails.java:43-56 | a null-safe `"literal".equalsIgnoreCase(status)` compares upper-case forms and is false for null |
| AutenticacionUserDetails.UpperIsIdempotent | src/main/java/com/autenticacion/demo/security/NominaUserDetails.java:25 | upper-casing twice gives the same result as once |
| AutenticacionUserDetails.NoRoleGivesDefaultAuthority | src/main/java/com/autenticacion/demo/security/NominaUserDetails.java:24-25 | without a role the only authority is ROLE_USUARIO |
| AutenticacionUserDetails.AuthorityIdentifiesRoleUpToCase | src/main/java/com/autenticacion/demo/security/NominaUserDetails.java:24-25 | two roles give the same authority exactly when their names are equal ignoring case |
| AutenticacionUserDetails.EnabledIsNeverLocked | src/main/java/com/autenticacion/demo/security/NominaUserDetails.java:43-56 | enabled implies not locked; status INACTIVO is neither enabled nor locked |
| AutenticacionUserDetailsService.Emails | src/main/java/com/autenticacion/demo/repository/UsuarioRepository.java:11 | the stored emails position by position |
| AutenticacionUserDetailsService.LoadUserByUsername | src/main/java/com/autenticacion/demo/security/CustomUserDetailsService.java:24-35 | success exactly when one stored email equals the input ignoring case, and then that account's adapter, whose username is the stored email; not found with the prefixed message exactly when none matches; an ambiguous match is an error |
| AutenticacionUserDetailsService.LoadIgnoresCaseOfInput | src/main/java/com/autenticacion/demo/security/CustomUserDetailsService.java:28 | inputs equal ignoring case load the same principal, or both fail |
| AutenticacionUserDetailsService.DistinctStoreLoadsEachAccount | src/main/java/com/autenticacion/demo/security/CustomUserDetailsService.java:27-29 | with case-distinct emails, any spelling of a stored email loads that account |
| ParcialtresUsuario.NotBlankIffVisible | src/main/java/com/parcialtres/demo/entity/Usuario.java:25 | `@NotBlank` (not null, something left after `trim()`) accepts exactly the non-null values with a character above U+0020 |
| ParcialtresUsuario.ConstraintsMeanValid | src/main/java/com/parcialtres/demo/entity/Usuario.java:25-41 | the six annotation checks all pass exactly when the account meets the validity predicate |
| ParcialtresUsuario.Violations | src/main/java/com/parcialtres/demo/entity/Usuario.java:25-41 | no violation exactly when the account is valid: a username of 3 to 50 characters, a password, a well-formed email and a role, each with a character above U+0020; each of the six violations is reported exactly when its own annotation fails, so a size or email violation names a present value that fails that check |
| ParcialtresUsuario.MessagesIdentifyViolations | src/main/java/com/parcialtres/demo/entity/Usuario.java:25-41 | the six constraint messages are pairwise distinct, so a message names its violation |
| ParcialtresUsuario.NewUsuarioDefaults | src/main/java/com/parcialtres/demo/entity/Usuario.java:52-53 | a new account has `activo` true and breaks exactly the four not-blank constraints |
| ParcialtresUsuario.ValidUsernameFitsColumn | src/main/java/com/parcialtres/demo/entity/Usuario.java:25-41 | a valid account's username fits its 50-character column and its required columns are set |
| ParcialtresUsuario.ValidationLeavesRolUnbounded | src/main/java/com/parcialtres/demo/entity/Usuario.java:39-41 | validation accepts any role with a character above U+0020, and one over 20 characters does not fit its column |
| ParcialtresCustomUserDetails.CustomUserDetails.Authorities | src/main/java/com/parcialtres/demo/security/CustomUserDetails.java:32-34 | one authority, "ROLE_" followed by the role exactly as stored, or "ROLE_null" |
| ParcialtresCustomUserDetails.FromUsuario | src/main/java/com/parcialtres/demo/security/CustomUserDetails.java:22-29 | the constructor copies id, email, username, password, rol and activo unchanged |
| ParcialtresCustomUserDetails.PrincipalReflectsAccount | src/main/java/com/parcialtres/demo/security/CustomUserDetails.java:36-64 | `Username` is the email (not the username field), `Password` the copied password, `IsAccountNonExpired`, `IsAccountNonLocked` and `IsCredentialsNonExpired` are true, and `IsEnabled` is `activo` |
| ParcialtresCustomUserDetails.DefaultAccountIsEnabled | src/main/java/com/parcialtres/demo/security/CustomUserDetails.java:61-64 | an account with `activo` at its default is enabled |
| ParcialtresCustomUserDetails.StoredAccountHasEnabledFlag | src/main/java/com/parcialtres/demo/entity/Usuario.java:52-53 | an account the table accepts gives a principal whose `isEnabled` cannot fail on null |
| ParcialtresCustomUserDetails.AuthorityIdentifiesRoleExactly | src/main/java/com/parcialtres/demo/security/CustomUserDetails.java:32-34 | two roles give the same authority exactly when they are the same string, case included |
| ParcialtresCustomUserDetails.ValidAccountHasRoleAuthority | src/main/java/com/parcialtres/demo/security/CustomUserDetails.java:32-34 | a valid account's authority is "ROLE_" followed by a role with a character above U+0020 |
| AutenticacionSecurityConfig.DecimalDigit | src/main/java/com/autenticacion/demo/config/SecurityConfig.java:22 | a digit of the cost written into the hash is a decimal digit character |
| AutenticacionSecurityConfig.BcryptHashString | src/main/java/com/autenticacion/demo/config/SecurityConfig.java:22 | every hash the encoder writes is 60 characters, starts with `$2a$` and has the bcrypt shape |
| AutenticacionSecurityConfig.EncodedPasswordsAreNotMigratedAgain | src/main/java/com/autenticacion/demo/config/SecurityConfig.java:22 | a password hashed by the cost-12 encoder never needs encoding by the migration |
| AutenticacionSecurityConfig.Segment | src/main/java/com/autenticacion/demo/config/SecurityConfig.java:36 | the first path segment: a prefix without '/', ending at the end or at a '/' |
| AutenticacionSecurityConfig.UnderTreeIffFirstSegment | src/main/java/com/autenticacion/demo/config/SecurityConfig.java:36 | a path matches "/name/**" exactly when it starts with '/' and its first segment is `name` |
| AutenticacionSecurityConfig.PublicTreeIffPublicDirectory | src/main/java/com/autenticacion/demo/config/SecurityConfig.java:36 | a path matches one of "/css/**", "/js/**", "/images/**" or "/webjars/**" exactly when it starts with '/' and its first segment names one of those four directories |
| AutenticacionSecurityConfig.IsPermitted | src/main/java/com/autenticacion/demo/config/SecurityConfig.java:35-38 | a path is public exactly when it is /auth/login or /error or its first segment is css, js, images or webjars; every other path needs a session |
| AutenticacionSecurityConfig.RedirectTargetsArePermitted | src/main/java/com/autenticacion/demo/config/SecurityConfig.java:35-47 | the login page and the failure and logout landing pages are permitted, so no redirect loops; "/" is protected |
| AutenticacionSecurityConfig.RouteOf | src/main/java/com/autenticacion/demo/config/SecurityConfig.java:31-49 | rejected for CSRF exactly when the request needs a token and has none; login processing exactly for a POST to /auth/login with a token, logout exactly for a POST to /logout with a token; a GET always reaches authorization |
| AutenticacionSecurityConfig.Authenticate | src/main/java/com/autenticacion/demo/config/SecurityConfig.java:20-28 | success only for a stored account whose email equals the input ignoring case, enabled, not locked and with a matching password; expiry never fails; a service failure exactly when the lookup is ambiguous; an unknown email is bad credentials |
| AutenticacionSecurityConfig.AuthenticateSucceedsIffValid | src/main/java/com/autenticacion/demo/config/SecurityConfig.java:20-28 | authentication succeeds exactly for a unique case-insensitive email match with a matching password and an active, non-suspended status, and yields that account's principal |
| AutenticacionSecurityConfig.SuspendedAccountIsRefused | src/main/java/com/autenticacion/demo/security/NominaUserDetails.java:43-46 | a suspended account is refused as locked whatever the password |
| AutenticacionSecurityConfig.InactiveAccountIsRefused | src/test/java/com/autenticacion/demo/controller/AuthControllerIntegrationTest.java:143-160 | an INACTIVO account is refused as disabled even with the right password |
| AutenticacionSecurityConfig.LoginStep | src/main/java/com/autenticacion/demo/config/SecurityConfig.java:39-44 | redirect to "/" exactly when authentication succeeds, else to /auth/login?error with nothing changed; on success the new id holds the principal, the next id advances by one, the presented session is dropped, and every live session afterwards is the new one or an old one other than the presented one; every other live session keeps its principal |
| AutenticacionSecurityConfig.LogoutStep | src/main/java/com/autenticacion/demo/config/SecurityConfig.java:45-49 | redirect to /auth/login?logout deleting JSESSIONID; the live sessions afterwards are exactly the old ones minus the presented one, with their principals |
| AutenticacionSecurityConfig.Step | src/main/java/com/autenticacion/demo/config/SecurityConfig.java:31-52 | 403 exactly on CSRF rejection; only login and logout change state; nothing is served unless the path is public or the session live; the state invariant is preserved |
| AutenticacionSecurityConfig.MissingCsrfTokenIsForbidden | src/main/java/com/autenticacion/demo/config/SecurityConfig.java:33 | a POST outside /h2-console without a CSRF token gets 403 and changes nothing, even with correct credentials |
| AutenticacionSecurityConfig.LoginSucceedsIffValidCredentials | src/main/java/com/autenticacion/demo/config/SecurityConfig.java:39-42 | in a valid state the new id is not live; a login submission redirects to "/" exactly for valid credentials, and then the new session holds the matched account's principal, whose username is the stored email; every other live session keeps its principal |
| AutenticacionSecurityConfig.LoginFailuresAreIndistinguishable | src/main/java/com/autenticacion/demo/config/SecurityConfig.java:43 | every failed login gets the same redirect to /auth/login?error and leaves the sessions unchanged |
| AutenticacionSecurityConfig.StepNeverRevivesSessions | src/main/java/com/autenticacion/demo/config/SecurityConfig.java:39-49 | every step keeps the state valid, and a session that is not live never becomes live again |
| AutenticacionSecurityConfig.AuthenticatedSessionIsServed | src/test/java/com/autenticacion/demo/controller/AuthControllerIntegrationTest.java:173-198 | a request with a live session is served and changes nothing |
| AutenticacionSecurityConfig.AnonymousRequestIsRedirected | src/main/java/com/autenticacion/demo/config/SecurityConfig.java:35-40 | an anonymous request for a protected path is redirected to /auth/login and nothing is served |
| AutenticacionSecurityConfig.LogoutRevokesSession | src/main/java/com/autenticacion/demo/config/SecurityConfig.java:45-49 | logout removes the session, deletes JSESSIONID and redirects to /auth/login?logout; a later request with that cookie is sent to the login page |
| AutenticacionSecurityConfig.LoginThenProtectedPageIsServed | src/test/java/com/autenticacion/demo/controller/AuthControllerIntegrationTest.java:173-198 | after a successful login, "/" requested with the new session cookie is served |
| AutenticacionSecurityConfig.SessionGate.constructor | src/main/java/com/autenticacion/demo/config/SecurityConfig.java:30-52 | the server starts with no live session |
| AutenticacionSecurityConfig.SessionGate.Login | src/main/java/com/autenticacion/demo/config/SecurityConfig.java:39-44 | the new sessions and the response are those of the login step, and the state stays valid |
| AutenticacionSecurityConfig.SessionGate.Logout | src/main/java/com/autenticacion/demo/config/SecurityConfig.java:45-49 | the new sessions and the response are those of the logout step, and the state stays valid |
| AutenticacionSecurityConfig.SessionGate.Authorize | src/main/java/com/autenticacion/demo/config/SecurityConfig.java:35-38 | served exactly when the path is permitted or the session is live; otherwise a redirect to the login page |
| AutenticacionSecurityConfig.SessionGate.Handle | src/main/java/com/autenticacion/demo/config/SecurityConfig.java:31-52 | one request changes the sessions and answers exactly as `Step` says, and keeps the state valid |

## Left out

- BCrypt internals are not modelled: salt generation, the key schedule and cost timing.
  `matches` is a parameter, and `encode` in the migration is a function of the position
  and the raw password.
- `BcryptHashString` fixes the `$2a$` version that `BCryptPasswordEncoder(12)` writes.
  The salt and checksum are inputs, not computed.
- The account record of the `autenticacion` tree, `com/autenticacion/demo/model/Usuario.java`,
  is not part of this model. Its record keeps the entity's fields; the adapter and the
  service read only the email, the password, the status and the role's name.
- The proaula adapter `com/proaula/nomina/security/NominaUserDetails.java` is not part of
  this model. That tree's principal is represented by the entity it wraps.
- The repositories are Spring Data derived queries with no code of their own. The store
  is a sequence of records. The lookup follows the derived query's case-insensitive
  comparison, and that query's outcome for two matches is included.
- Lombok getters and setters of the parcialtres entity are not modelled. The entity is a
  value, and a setter is a field update on it.
- The timestamp of `@PrePersist onCreate` is not modelled, because it reads the wall clock.
- `@Email` is the parameter `isEmail`. The empty string passes it, as in Hibernate
  Validator.
- Controllers, `DataInitializer`, transactions and logging are not modelled. They are
  rendering, seeding and framework concerns, and the migration has no per-record
  recovery.
- Case mapping and `isBlank` cover ASCII letters and an explicit whitespace set.
  Locale-specific and non-ASCII case rules are not modelled. String lengths count
  characters, not UTF-16 code units.
- HTTP mechanics are not modelled: cookie attributes, CSRF token generation and storage,
  frame-options headers, the saved-request cache, anonymous sessions and the absolute
  URL form of the entry-point redirect. Ant matching is reduced to an exact path or a
  `tree/` prefix.
- The form login filter's trimming of the submitted username is not modelled.
  The username reaches the lookup as submitted.
- A lookup that fails with an error other than not-found sends the client to
  /auth/login?error, not to a server-error response, because Spring wraps it as an
  authentication failure.
- Requests are handled one at a time; concurrency is not modelled.
- Some references are assumed non-null and are plain values. These are the email and
  password of the `autenticacion` account, the name of its role, and the email of the
  `proaula` account. In Java, a role whose name is null makes `getAuthorities` throw at
  NominaUserDetails.java lines 24-25, and the model does not include that case.
- ParcialtresCustomUserDetails.CustomUserDetails.IsEnabled: requires a non-null
  `activo`. The Java code throws on null, and the model does not include that exception.
