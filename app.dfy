/** The Session-authentication API application: choosing the authentication
    variant from `AUTH_TYPE` and the check run before every request. */
module App {
  import opened Wrappers
  import opened Models
  import SessionAuthBase

  /** The authentication classes `AUTH_TYPE` can select. */
  datatype AuthKind = PlainAuth | BasicAuth | SessionAuth

  /** The module-level selection: `auth`, `basic_auth` and `session_auth` pick
      `Auth`, `BasicAuth` and `SessionAuth`; any other value, or none, leaves
      authentication unset. */
  function SelectAuth(authType: Option<string>): (auth: Option<AuthKind>)
    ensures auth == Some(PlainAuth) <==> authType == Some("auth")
    ensures auth == Some(BasicAuth) <==> authType == Some("basic_auth")
    ensures auth == Some(SessionAuth) <==> authType == Some("session_auth")
  {
    if authType == Some("auth") then Some(PlainAuth)
    else if authType == Some("basic_auth") then Some(BasicAuth)
    else if authType == Some("session_auth") then Some(SessionAuth)
    else None
  }

  /** The paths `before_request` never protects. */
  const ExcludedPaths: seq<string> := ["/api/v1/status/", "/api/v1/unauthorized/", "/api/v1/forbidden/"]

  /** What `before_request` does with a request: let it through untouched,
      let it through with `request.current_user` set, or abort with a status. */
  datatype Verdict = Pass | Authenticated(user: User) | Abort(status: int)

  /** `auth.current_user(request)`. `Auth` answers None and `SessionAuth` adds
      nothing to it; `basicUser` is what the Basic variant's `current_user`
      answers for this request. */
  function CurrentUser(auth: AuthKind, request: Request, basicUser: Option<User>): (user: Option<User>)
    ensures auth != BasicAuth ==> user == None
  {
    match auth
    case PlainAuth => SessionAuthBase.CurrentUser(Some(request))
    case SessionAuth => SessionAuthBase.CurrentUser(Some(request))
    case BasicAuth => basicUser
  }

  /** `before_request`: no authentication configured or an excluded path
      passes; then a missing or empty `Authorization` header aborts with 401;
      then a missing current user aborts with 403; otherwise the current user
      is attached to the request. */
  function BeforeRequest(auth: Option<AuthKind>, request: Request, basicUser: Option<User>): (verdict: Verdict)
    ensures verdict.Abort? ==> verdict.status == 401 || verdict.status == 403
    ensures verdict.Authenticated? ==> auth == Some(BasicAuth) && basicUser == Some(verdict.user)
    ensures verdict != Pass ==> SessionAuthBase.RequiresAuth(Some(request.path), Some(ExcludedPaths))
  {
    if auth.None? then Pass
    else if !SessionAuthBase.RequiresAuth(Some(request.path), Some(ExcludedPaths)) then Pass
    else
      var header := SessionAuthBase.AuthorizationHeader(Some(request));
      if header.None? || header.value == [] then Abort(401)
      else
        match CurrentUser(auth.value, request, basicUser)
        case None => Abort(403)
        case Some(user) => Authenticated(user)
  }

  /** Without authentication configured every request passes. */
  lemma NoAuthPassesEverything(request: Request, basicUser: Option<User>)
    ensures BeforeRequest(None, request, basicUser) == Pass
  {
  }

  /** An excluded path passes whatever its headers. */
  lemma ExcludedPathPasses(auth: Option<AuthKind>, request: Request, basicUser: Option<User>)
    requires !SessionAuthBase.RequiresAuth(Some(request.path), Some(ExcludedPaths))
    ensures BeforeRequest(auth, request, basicUser) == Pass
  {
  }

  /** The three fixed exclusions, with or without their trailing `/`, pass
      whatever the headers. */
  lemma StatusPagesPass(auth: Option<AuthKind>, headers: map<string, string>, basicUser: Option<User>)
    ensures BeforeRequest(auth, Request("/api/v1/status", headers), basicUser) == Pass
    ensures BeforeRequest(auth, Request("/api/v1/status/", headers), basicUser) == Pass
    ensures BeforeRequest(auth, Request("/api/v1/unauthorized", headers), basicUser) == Pass
    ensures BeforeRequest(auth, Request("/api/v1/unauthorized/", headers), basicUser) == Pass
    ensures BeforeRequest(auth, Request("/api/v1/forbidden", headers), basicUser) == Pass
    ensures BeforeRequest(auth, Request("/api/v1/forbidden/", headers), basicUser) == Pass
  {
    assert SessionAuthBase.Excludes(ExcludedPaths[0], "/api/v1/status/");
    assert SessionAuthBase.Excludes(ExcludedPaths[1], "/api/v1/unauthorized/");
    assert SessionAuthBase.Excludes(ExcludedPaths[2], "/api/v1/forbidden/");
  }

  /** On a protected path a missing or empty header gives 401, whatever the
      current user would be: 401 takes precedence over 403. */
  lemma MissingHeaderIsUnauthorized(auth: AuthKind, request: Request, basicUser: Option<User>)
    requires SessionAuthBase.RequiresAuth(Some(request.path), Some(ExcludedPaths))
    requires "Authorization" !in request.headers || request.headers["Authorization"] == []
    ensures BeforeRequest(Some(auth), request, basicUser) == Abort(401)
  {
  }

  /** On a protected path a present header but no current user gives 403. */
  lemma NoCurrentUserIsForbidden(auth: AuthKind, request: Request, basicUser: Option<User>)
    requires SessionAuthBase.RequiresAuth(Some(request.path), Some(ExcludedPaths))
    requires "Authorization" in request.headers && request.headers["Authorization"] != []
    requires CurrentUser(auth, request, basicUser) == None
    ensures BeforeRequest(Some(auth), request, basicUser) == Abort(403)
  {
  }

  /** Otherwise the request carries the resolved user. */
  lemma ResolvedUserAttached(auth: AuthKind, request: Request, basicUser: Option<User>, user: User)
    requires SessionAuthBase.RequiresAuth(Some(request.path), Some(ExcludedPaths))
    requires "Authorization" in request.headers && request.headers["Authorization"] != []
    requires CurrentUser(auth, request, basicUser) == Some(user)
    ensures BeforeRequest(Some(auth), request, basicUser) == Authenticated(user)
  {
  }

  /** With `Auth` or `SessionAuth` selected, a protected path never gets
      through: their `current_user` is always None. */
  lemma PlainAndSessionNeverAuthenticate(auth: AuthKind, request: Request, basicUser: Option<User>)
    requires auth != BasicAuth
    requires SessionAuthBase.RequiresAuth(Some(request.path), Some(ExcludedPaths))
    ensures BeforeRequest(Some(auth), request, basicUser).Abort?
  {
  }

  /** A path outside the exclusions, such as `/api/v1/users`, is protected. */
  lemma UsersPathIsProtected()
    ensures SessionAuthBase.RequiresAuth(Some("/api/v1/users"), Some(ExcludedPaths))
  {
    var p := "/api/v1/users/";
    assert p[9] != ExcludedPaths[0][9] && p[9] != ExcludedPaths[1][9] && p[9] != ExcludedPaths[2][9];
    forall i | 0 <= i < |ExcludedPaths|
      ensures !SessionAuthBase.Excludes(ExcludedPaths[i], p)
    {
      assert p != ExcludedPaths[i] by { assert p[9] != ExcludedPaths[i][9]; }
    }
  }
}
