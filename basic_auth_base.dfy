/** The first-generation `Auth` class of the Basic-authentication API. */
module BasicAuthBase {
  import opened Wrappers
  import opened Text
  import opened Models

  /** `Auth.require_auth`: authentication is required unless the path, with a
      trailing `/` added when missing, is one of the excluded paths. A missing
      or empty path or exclusion list always requires authentication. */
  function RequireAuth(path: Option<string>, excludedPaths: Option<seq<string>>): (required: bool)
    ensures !required <==>
              path.Some? && path.value != [] && excludedPaths.Some? &&
              if EndsWith(path.value, '/') then path.value in excludedPaths.value
              else path.value + "/" in excludedPaths.value
  {
    if path.None? || path.value == [] || excludedPaths.None? || excludedPaths.value == [] then true
    else WithTrailingSlash(path.value) !in excludedPaths.value
  }

  /** The conservative default: nothing to compare against means authentication is required. */
  lemma EmptyInputsRequireAuth(path: Option<string>, excludedPaths: Option<seq<string>>)
    requires path == None || path == Some([]) || excludedPaths == None || excludedPaths == Some([])
    ensures RequireAuth(path, excludedPaths)
  {
  }

  /** Slash tolerance: `/x` and `/x/` always get the same answer. */
  lemma RequireAuthSlashTolerant(path: string, excludedPaths: Option<seq<string>>)
    requires path != [] && !EndsWith(path, '/')
    ensures RequireAuth(Some(path), excludedPaths) == RequireAuth(Some(path + "/"), excludedPaths)
  {
    WithTrailingSlashTolerant(path);
  }

  /** With a non-empty path and list, the answer is exactly non-membership of the
      normalised path. */
  lemma RequireAuthIsNonMembership(path: string, excludedPaths: seq<string>)
    requires path != [] && excludedPaths != []
    ensures RequireAuth(Some(path), Some(excludedPaths)) <==> WithTrailingSlash(path) !in excludedPaths
  {
  }

  /** `Auth.authorization_header`: a stub that always answers None. */
  function AuthorizationHeader(request: Option<Request>): (header: Option<string>)
    ensures header == None
  {
    None
  }

  /** `Auth.current_user`: a stub that always answers None. */
  function CurrentUser(request: Option<Request>): (user: Option<User>)
    ensures user == None
  {
    None
  }
}
