/**
 * SecurityConfig of the autenticacion tree: the BCrypt password encoder, which paths
 * need an authenticated session, and the behaviour of the filter chain it configures
 * (CSRF protection, form login, logout) as a gate over the server's live sessions.
 *
 * Authentication follows the provider Spring builds from the user-details service and
 * the encoder: load the account, reject it if locked, then if disabled, then if
 * expired, then check the password, then the credential expiry.  The encoder's
 * `matches(raw, encoded)` is a parameter.
 */
module AutenticacionSecurityConfig {

  import opened Wrappers
  import opened JavaText
  import opened EmailLookup
  import opened AutenticacionUserDetails
  import Service = AutenticacionUserDetailsService
  import Migration = ProaulaPasswordMigration

  // ---------------------------------------------------------------------------
  // Password encoder

  /** BCryptPasswordEncoder(12): the log2 cost written into every hash. */
  const BcryptStrength: nat := 12

  predicate IsBcryptBase64Char(c: char) {
    c == '.' || c == '/' || 'A' <= c <= 'Z' || 'a' <= c <= 'z' || '0' <= c <= '9'
  }

  /** The character of a decimal digit. */
  function DecimalDigit(d: nat): (c: char)
    requires d < 10
    ensures '0' <= c <= '9' && c as int == '0' as int + d
  {
    ('0' as int + d) as char
  }

  /** The hash string the encoder produces: "$2a$", the cost as two digits, "$", then
      22 characters of salt and 31 of checksum, all in bcrypt's base-64 alphabet. */
  function BcryptHashString(cost: nat, salt: string, checksum: string): (h: string)
    requires 4 <= cost <= 31
    requires |salt| == 22 && |checksum| == 31
    requires forall i :: 0 <= i < 22 ==> IsBcryptBase64Char(salt[i])
    requires forall i :: 0 <= i < 31 ==> IsBcryptBase64Char(checksum[i])
    ensures |h| == 60 && h[..4] == "$2a$" && h[6] == '$'
    ensures h[4] == DecimalDigit(cost / 10) && h[5] == DecimalDigit(cost % 10)
    ensures h[7..29] == salt && h[29..] == checksum
    ensures Migration.IsBcryptShaped(h)
  {
    var h := "$2a$" + [DecimalDigit(cost / 10), DecimalDigit(cost % 10)] + "$" + salt + checksum;
    assert forall i :: 7 <= i < 29 ==> h[i] == salt[i - 7];
    assert forall i :: 29 <= i < 60 ==> h[i] == checksum[i - 29];
    assert forall i :: 4 <= i < 60 ==> h[i] == '$' || IsBcryptBase64Char(h[i]);
    h
  }

  /** Whatever salt and checksum the configured encoder draws, its output never needs
      encoding again: the start-up migration leaves it alone. */
  lemma EncodedPasswordsAreNotMigratedAgain(salt: string, checksum: string)
    requires |salt| == 22 && |checksum| == 31
    requires forall i :: 0 <= i < 22 ==> IsBcryptBase64Char(salt[i])
    requires forall i :: 0 <= i < 31 ==> IsBcryptBase64Char(checksum[i])
    ensures BcryptHashString(BcryptStrength, salt, checksum)[..7] == "$2a$12$"
    ensures !Migration.NeedsEncoding(Some(BcryptHashString(BcryptStrength, salt, checksum)))
  {
    var h := BcryptHashString(BcryptStrength, salt, checksum);
    assert !IsWhitespace(h[0]);
  }

  // ---------------------------------------------------------------------------
  // Paths

  /** A redirect target: a path and a query string ("" for none). */
  datatype Url = Url(path: string, query: string)

  const LoginPage := "/auth/login"
  const ErrorPage := "/error"
  const LogoutPath := "/logout"
  const CsrfIgnoredTree := "/h2-console"
  const SessionCookie := "JSESSIONID"

  const LoginEntryPoint := Url(LoginPage, "")
  const LoginFailureUrl := Url(LoginPage, "error")
  const LogoutSuccessUrl := Url(LoginPage, "logout")
  const DefaultSuccessUrl := Url("/", "")

  // The Ant pattern "tree/" followed by a double star: the directory itself or anything
  // below it.
  predicate UnderTree(path: string, tree: string) {
    path == tree || (|tree| < |path| && path[..|tree|] == tree && path[|tree|] == '/')
  }

  /** The directories whose whole contents are public. */
  const PublicDirectories := {"css", "js", "images", "webjars"}

  /** The first segment of a path written without its leading '/': everything up to
      the next '/'. */
  function Segment(s: string): (r: string)
    ensures |r| <= |s| && r == s[..|r|] && (|r| == |s| || s[|r|] == '/')
    ensures forall i :: 0 <= i < |r| ==> r[i] != '/'
  {
    if s == [] || s[0] == '/' then [] else [s[0]] + Segment(s[1..])
  }

  /** A path lies in the tree "/name" exactly when its first segment is `name`. */
  lemma UnderTreeIffFirstSegment(path: string, name: string)
    requires forall i :: 0 <= i < |name| ==> name[i] != '/'
    ensures UnderTree(path, "/" + name) <==> |path| > 0 && path[0] == '/' && Segment(path[1..]) == name
  {
    if |path| > 0 && path[0] == '/' {
      var rest := path[1..];
      var r := Segment(rest);
      if UnderTree(path, "/" + name) {
        var tree := "/" + name;
        assert tree[1..] == name && |name| <= |rest|;
        assert path[..|tree|] == tree;
        assert rest[..|name|] == path[..|tree|][1..];
        assert |name| == |rest| || rest[|name|] == '/';
      }
      if r == name {
        assert path == "/" + name || path[..|name| + 1] == "/" + name;
      }
    }
  }

  /** A path lies under one of the public trees exactly when its first segment names a
      public directory. */
  lemma PublicTreeIffPublicDirectory(path: string)
    ensures (|| UnderTree(path, "/css") || UnderTree(path, "/js")
             || UnderTree(path, "/images") || UnderTree(path, "/webjars"))
        <==> |path| > 0 && path[0] == '/' && Segment(path[1..]) in PublicDirectories
  {
    assert "/" + "css" == "/css" && "/" + "js" == "/js";
    assert "/" + "images" == "/images" && "/" + "webjars" == "/webjars";
    UnderTreeIffFirstSegment(path, "css");
    UnderTreeIffFirstSegment(path, "js");
    UnderTreeIffFirstSegment(path, "images");
    UnderTreeIffFirstSegment(path, "webjars");
  }

  /** The permitAll matchers: the login and error pages and everything under the
      public directories; every other path needs an authenticated session. */
  function IsPermitted(path: string): (r: bool)
    ensures r <==> path == LoginPage || path == ErrorPage
                   || (|path| > 0 && path[0] == '/' && Segment(path[1..]) in PublicDirectories)
  {
    PublicTreeIffPublicDirectory(path);
    path == LoginPage || path == ErrorPage
    || UnderTree(path, "/css") || UnderTree(path, "/js")
    || UnderTree(path, "/images") || UnderTree(path, "/webjars")
  }

  /** The login form, the failure and logout landing pages are reachable without a
      session, so none of the gate's redirects loops; the default landing page is
      protected. */
  lemma RedirectTargetsArePermitted()
    ensures IsPermitted(LoginEntryPoint.path) && IsPermitted(LoginFailureUrl.path)
    ensures IsPermitted(LogoutSuccessUrl.path)
    ensures !IsPermitted(DefaultSuccessUrl.path)
  {
    assert !UnderTree("/", "/css") && !UnderTree("/", "/js");
    assert !UnderTree("/", "/images") && !UnderTree("/", "/webjars");
  }

  // ---------------------------------------------------------------------------
  // Requests and responses

  type SessionId = nat

  datatype HttpMethod = Get | Head | Options | Trace | Post | Put | Patch | Delete

  /** One HTTP request: its method and path, the session cookie it presents, whether it
      carries a valid CSRF token, and the login form's fields ("" when absent). */
  datatype Request = Request(
    verb: HttpMethod,
    path: string,
    session: Option<SessionId>,
    csrfToken: bool,
    username: string,
    password: string)

  datatype Outcome =
    | Redirect(location: Url)  // 302 to the location
    | Forbidden                // 403
    | Served(path: string)     // passed on to the application

  datatype CookieChange = KeepCookie | SetCookie(id: SessionId) | DeleteCookie(name: string)

  datatype Response = Response(outcome: Outcome, cookie: CookieChange)

  /** CSRF protection applies to every method but GET, HEAD, TRACE and OPTIONS, except
      under /h2-console. */
  predicate RequiresCsrf(req: Request) {
    !(req.verb.Get? || req.verb.Head? || req.verb.Trace? || req.verb.Options?)
    && !UnderTree(req.path, CsrfIgnoredTree)
  }

  /** Which filter answers a request: the CSRF filter first, then logout, then login
      processing; everything else reaches the authorization check. */
  datatype Route = CsrfRejection | LogoutHandling | LoginProcessing | Authorization

  function RouteOf(req: Request): (r: Route)
    ensures r == CsrfRejection <==> RequiresCsrf(req) && !req.csrfToken
    ensures r == LogoutHandling || r == LoginProcessing ==> req.verb.Post? && req.csrfToken
    ensures req.verb.Get? ==> r == Authorization
    ensures r == LoginProcessing <==> req.verb.Post? && req.path == LoginPage && req.csrfToken
    ensures r == LogoutHandling <==> req.verb.Post? && req.path == LogoutPath && req.csrfToken
  {
    assert LoginPage[1] != CsrfIgnoredTree[1] && |LogoutPath| < |CsrfIgnoredTree|;
    if RequiresCsrf(req) && !req.csrfToken then CsrfRejection
    else if req.verb.Post? && req.path == LogoutPath then LogoutHandling
    else if req.verb.Post? && req.path == LoginPage then LoginProcessing
    else Authorization
  }

  // ---------------------------------------------------------------------------
  // Authentication

  /** Why an authentication attempt failed; the gate shows none of this to the client. */
  datatype AuthFailure = BadCredentials | Locked | Disabled | AccountExpired | CredentialsExpired | ServiceFailure

  /** The provider's decision for a submitted username and password.  An unknown user is
      reported as bad credentials; a failing lookup as a service failure. */
  function Authenticate(store: seq<Usuario>, username: string, password: string,
                        matches: (string, string) -> bool): (r: Result<NominaUserDetails, AuthFailure>)
    ensures r.Success? ==> r.value.usuario in store && EqualsIgnoreCase(r.value.Username(), username)
    ensures r.Success? ==> r.value.IsEnabled() && r.value.IsAccountNonLocked() && matches(password, r.value.Password())
    ensures r.Failure? ==> r.error != AccountExpired && r.error != CredentialsExpired
    ensures r == Failure(ServiceFailure) <==> Service.LoadUserByUsername(store, username) == Failure(IncorrectResultSize)
    ensures (forall u :: u in store ==> !EqualsIgnoreCase(u.email, username)) ==> r == Failure(BadCredentials)
  {
    match Service.LoadUserByUsername(store, username)
    case Failure(UsernameNotFound(_)) => Failure(BadCredentials)
    case Failure(IncorrectResultSize) => Failure(ServiceFailure)
    case Success(details) =>
      if !details.IsAccountNonLocked() then Failure(Locked)
      else if !details.IsEnabled() then Failure(Disabled)
      else if !details.IsAccountNonExpired() then Failure(AccountExpired)
      else if !matches(password, details.Password()) then Failure(BadCredentials)
      else if !details.IsCredentialsNonExpired() then Failure(CredentialsExpired)
      else Success(details)
  }

  /** The account at `i` is the only one with this email ignoring case, the password
      matches its stored hash, and its status is active and not suspended. */
  predicate AcceptsLogin(store: seq<Usuario>, username: string, password: string,
                         matches: (string, string) -> bool, i: int)
  {
    UniqueMatchAt(Service.Emails(store), username, i)
    && matches(password, store[i].password)
    && store[i].estado.Some?
    && ToUpper(store[i].estado.value) == "ACTIVO"
    && ToUpper(store[i].estado.value) != "SUSPENDIDO"
  }

  ghost predicate ValidCredentials(store: seq<Usuario>, username: string, password: string,
                             matches: (string, string) -> bool)
  {
    exists i :: AcceptsLogin(store, username, password, matches, i)
  }

  /** Authentication succeeds exactly for valid credentials, and then yields the
      principal of the matched account, whose login name is the stored email. */
  lemma AuthenticateSucceedsIffValid(store: seq<Usuario>, username: string, password: string,
                                     matches: (string, string) -> bool)
    ensures Authenticate(store, username, password, matches).Success?
        <==> ValidCredentials(store, username, password, matches)
    ensures forall i :: AcceptsLogin(store, username, password, matches, i) ==>
      Authenticate(store, username, password, matches) == Success(NominaUserDetails(store[i]))
  {
    var r := Service.LoadUserByUsername(store, username);
    if Authenticate(store, username, password, matches).Success? {
      var i :| UniqueMatchAt(Service.Emails(store), username, i);
      assert r == Success(NominaUserDetails(store[i]));
      assert AcceptsLogin(store, username, password, matches, i);
    }
  }

  /** A suspended account is refused whatever password is submitted. */
  lemma SuspendedAccountIsRefused(store: seq<Usuario>, username: string, password: string,
                                  matches: (string, string) -> bool, i: nat)
    requires UniqueMatchAt(Service.Emails(store), username, i)
    requires store[i].estado.Some? && ToUpper(store[i].estado.value) == "SUSPENDIDO"
    ensures Authenticate(store, username, password, matches) == Failure(Locked)
  {
    assert Service.LoadUserByUsername(store, username) == Success(NominaUserDetails(store[i]));
  }

  /** An account whose status is INACTIVO is refused, with the right password too. */
  lemma InactiveAccountIsRefused(store: seq<Usuario>, username: string, password: string,
                                 matches: (string, string) -> bool, i: nat)
    requires UniqueMatchAt(Service.Emails(store), username, i)
    requires store[i].estado == Some("INACTIVO")
    ensures Authenticate(store, username, password, matches) == Failure(Disabled)
  {
    assert Service.LoadUserByUsername(store, username) == Success(NominaUserDetails(store[i]));
    EnabledIsNeverLocked(store[i]);
  }

  // ---------------------------------------------------------------------------
  // The session gate as a transition function

  /** The server's live sessions, each holding the principal of its security context,
      and the next session identifier to hand out. */
  datatype GateState = GateState(sessions: map<SessionId, NominaUserDetails>, nextId: SessionId)

  /** Every live identifier was handed out before, so a new one is never a live one. */
  predicate ValidState(s: GateState) {
    forall id :: id in s.sessions ==> id < s.nextId
  }

  datatype Transition = Transition(next: GateState, response: Response)

  function IsAuthenticated(s: GateState, session: Option<SessionId>): bool {
    session.Some? && session.value in s.sessions
  }

  /** Drops the presented session, if any. */
  function Invalidate(s: GateState, session: Option<SessionId>): GateState {
    if session.Some? then GateState(s.sessions - {session.value}, s.nextId) else s
  }

  /** Form login: on success the presented session is replaced by a new one holding the
      principal and the client goes to "/"; every failure goes to /auth/login?error and
      changes nothing. */
  function LoginStep(s: GateState, session: Option<SessionId>, username: string, password: string,
                     store: seq<Usuario>, matches: (string, string) -> bool): (t: Transition)
    ensures t.response.outcome == Redirect(DefaultSuccessUrl) || t.response.outcome == Redirect(LoginFailureUrl)
    ensures t.response.outcome == Redirect(DefaultSuccessUrl) <==> Authenticate(store, username, password, matches).Success?
    ensures Authenticate(store, username, password, matches).Failure? ==> t == Transition(s, Response(Redirect(LoginFailureUrl), KeepCookie))
    ensures Authenticate(store, username, password, matches).Success? ==>
      && t.response.cookie == SetCookie(s.nextId) && t.next.nextId == s.nextId + 1
      && s.nextId in t.next.sessions
      && t.next.sessions[s.nextId] == Authenticate(store, username, password, matches).value
    ensures Authenticate(store, username, password, matches).Success? ==>
      forall id :: id in t.next.sessions ==> id == s.nextId || (id in s.sessions && session != Some(id))
    ensures Authenticate(store, username, password, matches).Success? && session.Some? && session.value != s.nextId
      ==> session.value !in t.next.sessions
    ensures forall id :: id in s.sessions && session != Some(id) && id != s.nextId ==>
      id in t.next.sessions && t.next.sessions[id] == s.sessions[id]
  {
    match Authenticate(store, username, password, matches)
    case Success(details) =>
      var kept := Invalidate(s, session);
      Transition(GateState(kept.sessions[s.nextId := details], s.nextId + 1),
                 Response(Redirect(DefaultSuccessUrl), SetCookie(s.nextId)))
    case Failure(_) =>
      Transition(s, Response(Redirect(LoginFailureUrl), KeepCookie))
  }

  /** Logout: the presented session is invalidated, the cookie deleted, and the client
      sent to /auth/login?logout. */
  function LogoutStep(s: GateState, session: Option<SessionId>): (t: Transition)
    ensures t.response == Response(Redirect(LogoutSuccessUrl), DeleteCookie(SessionCookie))
    ensures t.next.nextId == s.nextId
    ensures forall id :: id in t.next.sessions <==> id in s.sessions && session != Some(id)
    ensures forall id :: id in t.next.sessions ==> t.next.sessions[id] == s.sessions[id]
  {
    Transition(Invalidate(s, session), Response(Redirect(LogoutSuccessUrl), DeleteCookie(SessionCookie)))
  }

  /** Authorization: permitted paths and authenticated sessions are served; an anonymous
      request for anything else is sent to the login page. */
  function AuthorizeResponse(s: GateState, path: string, session: Option<SessionId>): Response {
    if IsPermitted(path) || IsAuthenticated(s, session) then Response(Served(path), KeepCookie)
    else Response(Redirect(LoginEntryPoint), KeepCookie)
  }

  /** One request through the whole filter chain. */
  function Step(s: GateState, req: Request, store: seq<Usuario>, matches: (string, string) -> bool): (t: Transition)
    ensures t.response.outcome.Forbidden? <==> RouteOf(req) == CsrfRejection
    ensures t.next != s ==> RouteOf(req) == LogoutHandling || RouteOf(req) == LoginProcessing
    ensures t.response.outcome.Served? ==> IsPermitted(req.path) || IsAuthenticated(s, req.session)
    ensures ValidState(s) ==> ValidState(t.next)
  {
    match RouteOf(req)
    case CsrfRejection => Transition(s, Response(Forbidden, KeepCookie))
    case LogoutHandling => LogoutStep(s, req.session)
    case LoginProcessing => LoginStep(s, req.session, req.username, req.password, store, matches)
    case Authorization => Transition(s, AuthorizeResponse(s, req.path, req.session))
  }

  /** A state-changing request without a CSRF token is refused with 403 before any
      login or logout logic runs, even with correct credentials, and changes nothing. */
  lemma MissingCsrfTokenIsForbidden(s: GateState, req: Request, store: seq<Usuario>,
                                    matches: (string, string) -> bool)
    requires req.verb.Post? && !UnderTree(req.path, CsrfIgnoredTree) && !req.csrfToken
    ensures Step(s, req, store, matches) == Transition(s, Response(Forbidden, KeepCookie))
  {
  }

  /** A login submission succeeds exactly for valid credentials.  On success the new
      session is the next identifier, it holds the matched account's principal, and the
      client is sent to "/". */
  lemma LoginSucceedsIffValidCredentials(s: GateState, req: Request, store: seq<Usuario>,
                                         matches: (string, string) -> bool)
    requires ValidState(s)
    requires RouteOf(req) == LoginProcessing
    ensures s.nextId !in s.sessions
    ensures Step(s, req, store, matches).response.outcome == Redirect(DefaultSuccessUrl)
        <==> ValidCredentials(store, req.username, req.password, matches)
    ensures forall id :: id in s.sessions && req.session != Some(id) ==>
      id in Step(s, req, store, matches).next.sessions
      && Step(s, req, store, matches).next.sessions[id] == s.sessions[id]
    ensures forall i :: AcceptsLogin(store, req.username, req.password, matches, i) ==>
      var t := Step(s, req, store, matches);
      && t.response == Response(Redirect(DefaultSuccessUrl), SetCookie(s.nextId))
      && s.nextId in t.next.sessions
      && t.next.sessions[s.nextId] == NominaUserDetails(store[i])
      && t.next.sessions[s.nextId].Username() == store[i].email
  {
    AuthenticateSucceedsIffValid(store, req.username, req.password, matches);
  }

  /** Unknown email, wrong password, inactive or suspended status: every failed login
      gets the same redirect and leaves the sessions as they were. */
  lemma LoginFailuresAreIndistinguishable(s: GateState, r1: Request, r2: Request,
                                          store: seq<Usuario>, matches: (string, string) -> bool)
    requires RouteOf(r1) == LoginProcessing && RouteOf(r2) == LoginProcessing
    requires !ValidCredentials(store, r1.username, r1.password, matches)
    requires !ValidCredentials(store, r2.username, r2.password, matches)
    ensures Step(s, r1, store, matches) == Step(s, r2, store, matches)
    ensures Step(s, r1, store, matches) == Transition(s, Response(Redirect(LoginFailureUrl), KeepCookie))
  {
    AuthenticateSucceedsIffValid(store, r1.username, r1.password, matches);
    AuthenticateSucceedsIffValid(store, r2.username, r2.password, matches);
  }

  /** Every step keeps identifiers below nextId, and an identifier that is not live
      never becomes live again: invalidated sessions are never reused. */
  lemma StepNeverRevivesSessions(s: GateState, req: Request, store: seq<Usuario>,
                                 matches: (string, string) -> bool, id: SessionId)
    requires ValidState(s)
    ensures ValidState(Step(s, req, store, matches).next)
    ensures id < s.nextId && id !in s.sessions ==> id !in Step(s, req, store, matches).next.sessions
  {
  }

  /** A session that presents its cookie is served any path, protected or not. */
  lemma AuthenticatedSessionIsServed(s: GateState, req: Request, store: seq<Usuario>,
                                     matches: (string, string) -> bool)
    requires RouteOf(req) == Authorization && IsAuthenticated(s, req.session)
    ensures Step(s, req, store, matches) == Transition(s, Response(Served(req.path), KeepCookie))
  {
  }

  /** An anonymous request for a protected path is redirected to the login page and
      nothing is served. */
  lemma AnonymousRequestIsRedirected(s: GateState, req: Request, store: seq<Usuario>,
                                     matches: (string, string) -> bool)
    requires RouteOf(req) == Authorization && !IsAuthenticated(s, req.session)
    requires !IsPermitted(req.path)
    ensures Step(s, req, store, matches) == Transition(s, Response(Redirect(LoginEntryPoint), KeepCookie))
  {
  }

  /** After a logout with session `id`, that session is gone, the client is sent to
      /auth/login?logout with JSESSIONID deleted, and any later request for a
      protected path with the same cookie is treated as anonymous. */
  lemma LogoutRevokesSession(s: GateState, logout: Request, later: Request,
                             store: seq<Usuario>, matches: (string, string) -> bool)
    requires logout.verb.Post? && logout.path == LogoutPath && logout.csrfToken
    requires logout.session.Some?
    requires later.session == logout.session
    requires RouteOf(later) == Authorization && !IsPermitted(later.path)
    ensures Step(s, logout, store, matches).response
         == Response(Redirect(LogoutSuccessUrl), DeleteCookie(SessionCookie))
    ensures logout.session.value !in Step(s, logout, store, matches).next.sessions
    ensures Step(Step(s, logout, store, matches).next, later, store, matches).response
         == Response(Redirect(LoginEntryPoint), KeepCookie)
  {
    assert RouteOf(logout) == LogoutHandling;
  }

  /** Valid credentials, then a request for "/" with the cookie the login set: the
      page is served. */
  lemma LoginThenProtectedPageIsServed(s: GateState, login: Request, store: seq<Usuario>,
                                       matches: (string, string) -> bool)
    requires RouteOf(login) == LoginProcessing
    requires ValidCredentials(store, login.username, login.password, matches)
    ensures
      var t := Step(s, login, store, matches);
      var home := Request(Get, DefaultSuccessUrl.path, Some(s.nextId), false, "", "");
      t.response.cookie == SetCookie(s.nextId)
      && Step(t.next, home, store, matches).response == Response(Served("/"), KeepCookie)
  {
    AuthenticateSucceedsIffValid(store, login.username, login.password, matches);
  }

  // ---------------------------------------------------------------------------
  // The session gate as server state

  class SessionGate {
    var sessions: map<SessionId, NominaUserDetails>
    var nextId: SessionId

    function State(): GateState
      reads this
    {
      GateState(sessions, nextId)
    }

    ghost predicate Valid()
      reads this
    {
      ValidState(State())
    }

    constructor ()
      ensures Valid() && sessions == map[] && nextId == 0
    {
      sessions := map[];
      nextId := 0;
    }

    /** POST /auth/login with a CSRF token. */
    method Login(session: Option<SessionId>, username: string, password: string,
                 store: seq<Usuario>, matches: (string, string) -> bool) returns (response: Response)
      requires Valid()
      modifies this
      ensures Valid()
      ensures Transition(State(), response) == LoginStep(old(State()), session, username, password, store, matches)
    {
      var result := Authenticate(store, username, password, matches);
      if result.Success? {
        if session.Some? {
          sessions := sessions - {session.value};
        }
        var id := nextId;
        sessions := sessions[id := result.value];
        nextId := nextId + 1;
        response := Response(Redirect(DefaultSuccessUrl), SetCookie(id));
      } else {
        response := Response(Redirect(LoginFailureUrl), KeepCookie);
      }
    }

    /** POST /logout with a CSRF token. */
    method Logout(session: Option<SessionId>) returns (response: Response)
      requires Valid()
      modifies this
      ensures Valid()
      ensures Transition(State(), response) == LogoutStep(old(State()), session)
    {
      if session.Some? {
        sessions := sessions - {session.value};
      }
      response := Response(Redirect(LogoutSuccessUrl), DeleteCookie(SessionCookie));
    }

    /** Any request that reaches the authorization check; it changes nothing. */
    method Authorize(path: string, session: Option<SessionId>) returns (response: Response)
      ensures response == AuthorizeResponse(State(), path, session)
    {
      if IsPermitted(path) || (session.Some? && session.value in sessions) {
        response := Response(Served(path), KeepCookie);
      } else {
        response := Response(Redirect(LoginEntryPoint), KeepCookie);
      }
    }

    /** One request through the filter chain. */
    method Handle(req: Request, store: seq<Usuario>, matches: (string, string) -> bool) returns (response: Response)
      requires Valid()
      modifies this
      ensures Valid()
      ensures Transition(State(), response) == Step(old(State()), req, store, matches)
    {
      match RouteOf(req)
      case CsrfRejection =>
        response := Response(Forbidden, KeepCookie);
      case LogoutHandling =>
        response := Logout(req.session);
      case LoginProcessing =>
        response := Login(req.session, req.username, req.password, store, matches);
      case Authorization =>
        response := Authorize(req.path, req.session);
    }
  }
}
