/** The second-generation `Auth` class of the Session-authentication API, whose
    exclusion list also accepts wildcard entries. */
module SessionAuthBase {
  import opened Wrappers
  import opened Text
  import opened Models
  import BasicAuthBase

  /** Whether one exclusion entry excludes an already normalised path: an entry
      ending in `/` by equality, an entry ending in `*` when the path's first
      `len(entry) - 1` characters equal the entry without its `*`; any other
      entry excludes nothing. */
  predicate Excludes(entry: string, normalisedPath: string) {
    if EndsWith(entry, '/') then normalisedPath == entry
    else if EndsWith(entry, '*') then Take(normalisedPath, |entry| - 1) == entry[..|entry| - 1]
    else false
  }

  /** The answer `Auth.require_auth` gives: authentication is required for a
      missing or empty path or exclusion list, and otherwise exactly when no
      entry excludes the normalised path. */
  predicate RequiresAuth(path: Option<string>, excludedPaths: Option<seq<string>>) {
    if path.None? || path.value == [] || excludedPaths.None? || excludedPaths.value == [] then true
    else
      var normalised := WithTrailingSlash(path.value);
      forall i :: 0 <= i < |excludedPaths.value| ==> !Excludes(excludedPaths.value[i], normalised)
  }

  /** `Auth.require_auth`, scanning the entries in order and returning False at
      the first one that excludes the path. */
  method RequireAuth(path: Option<string>, excludedPaths: Option<seq<string>>) returns (required: bool)
    ensures required == RequiresAuth(path, excludedPaths)
  {
    if path.None? || path.value == [] || excludedPaths.None? || excludedPaths.value == [] {
      return true;
    }
    var p := path.value;
    if !EndsWith(p, '/') {
      p := p + "/";
    }
    var entries := excludedPaths.value;
    for i := 0 to |entries|
      invariant p == WithTrailingSlash(path.value)
      invariant forall j :: 0 <= j < i ==> !Excludes(entries[j], p)
    {
      var exPath := entries[i];
      if EndsWith(exPath, '/') {
        if p == exPath {
          return false;
        }
      } else if EndsWith(exPath, '*') {
        if Take(p, |exPath| - 1) == exPath[..|exPath| - 1] {
          return false;
        }
      }
    }
    return true;
  }

  /** The conservative default: nothing to compare against means authentication is required. */
  lemma EmptyInputsRequireAuth(path: Option<string>, excludedPaths: Option<seq<string>>)
    requires path == None || path == Some([]) || excludedPaths == None || excludedPaths == Some([])
    ensures RequiresAuth(path, excludedPaths)
  {
  }

  /** Slash tolerance: `/x` and `/x/` always get the same answer. */
  lemma RequiresAuthSlashTolerant(path: string, excludedPaths: Option<seq<string>>)
    requires path != [] && !EndsWith(path, '/')
    ensures RequiresAuth(Some(path), excludedPaths) == RequiresAuth(Some(path + "/"), excludedPaths)
  {
    WithTrailingSlashTolerant(path);
  }

  /** An entry ending in `/` excludes exactly the paths that normalise to it. */
  lemma SlashEntryExcludesExactly(entry: string, path: string)
    requires EndsWith(entry, '/') && path != []
    ensures !RequiresAuth(Some(path), Some([entry])) <==> WithTrailingSlash(path) == entry
  {
    assert [entry][0] == entry;
  }

  /** An entry ending in `*` excludes exactly the paths whose normalised form
      starts with the entry minus its `*`. */
  lemma WildcardEntryExcludesPrefix(entry: string, path: string)
    requires EndsWith(entry, '*') && path != []
    ensures !RequiresAuth(Some(path), Some([entry])) <==> StartsWith(WithTrailingSlash(path), entry[..|entry| - 1])
  {
    assert [entry][0] == entry;
    TakeIsPrefixTest(WithTrailingSlash(path), entry[..|entry| - 1]);
  }

  /** `/api/public*` excludes `/api/publicfoo` and `/api/public/`. */
  lemma WildcardExamples()
    ensures !RequiresAuth(Some("/api/publicfoo"), Some(["/api/public*"]))
    ensures !RequiresAuth(Some("/api/public/"), Some(["/api/public*"]))
  {
    WildcardEntryExcludesPrefix("/api/public*", "/api/publicfoo");
    assert StartsWith("/api/publicfoo/", "/api/public");
    WildcardEntryExcludesPrefix("/api/public*", "/api/public/");
    assert StartsWith("/api/public/", "/api/public");
  }

  /** An entry ending in neither `/` nor `*` never changes the answer, wherever it sits. */
  lemma InertEntryIgnored(path: Option<string>, before: seq<string>, entry: string, after: seq<string>)
    requires !EndsWith(entry, '/') && !EndsWith(entry, '*')
    ensures RequiresAuth(path, Some(before + [entry] + after)) == RequiresAuth(path, Some(before + after))
  {
    if path.Some? && path.value != [] {
      var p := WithTrailingSlash(path.value);
      var withEntry, without := before + [entry] + after, before + after;
      if exists i :: 0 <= i < |withEntry| && Excludes(withEntry[i], p) {
        var i :| 0 <= i < |withEntry| && Excludes(withEntry[i], p);
        if i < |before| {
          assert without[i] == withEntry[i];
        } else {
          assert i > |before|;
          assert without[i - 1] == withEntry[i];
        }
      }
      if exists i :: 0 <= i < |without| && Excludes(without[i], p) {
        var i :| 0 <= i < |without| && Excludes(without[i], p);
        if i < |before| {
          assert withEntry[i] == without[i];
        } else {
          assert withEntry[i + 1] == without[i];
        }
      }
    }
  }

  /** Only which entries are present matters, not their order or repetition. */
  lemma OrderIrrelevant(path: Option<string>, a: seq<string>, b: seq<string>)
    requires forall e :: e in a <==> e in b
    ensures RequiresAuth(path, Some(a)) == RequiresAuth(path, Some(b))
  {
    if a != [] { assert a[0] in b; }
    if b != [] { assert b[0] in a; }
    if path.Some? && path.value != [] {
      var p := WithTrailingSlash(path.value);
      if exists i :: 0 <= i < |a| && Excludes(a[i], p) {
        var i :| 0 <= i < |a| && Excludes(a[i], p);
        assert a[i] in b;
      }
      if exists i :: 0 <= i < |b| && Excludes(b[i], p) {
        var i :| 0 <= i < |b| && Excludes(b[i], p);
        assert b[i] in a;
      }
    }
  }

  /** When every entry ends in `/`, the wildcard-aware gate agrees with the
      first-generation membership test. */
  lemma AgreesWithMembershipGate(path: Option<string>, excludedPaths: Option<seq<string>>)
    requires excludedPaths.Some? ==> forall e :: e in excludedPaths.value ==> EndsWith(e, '/')
    ensures RequiresAuth(path, excludedPaths) == BasicAuthBase.RequireAuth(path, excludedPaths)
  {
    if path.Some? && path.value != [] && excludedPaths.Some? && excludedPaths.value != [] {
      var p := WithTrailingSlash(path.value);
      var entries := excludedPaths.value;
      if p in entries {
        var i :| 0 <= i < |entries| && entries[i] == p;
        assert Excludes(entries[i], p);
      }
      if exists i :: 0 <= i < |entries| && Excludes(entries[i], p) {
        var i :| 0 <= i < |entries| && Excludes(entries[i], p);
        assert entries[i] in entries;
      }
    }
  }

  /** `Auth.authorization_header`: the `Authorization` header of the request, or
      None when there is no request or no such header. */
  function AuthorizationHeader(request: Option<Request>): (header: Option<string>)
    ensures header.Some? <==> request.Some? && "Authorization" in request.value.headers
    ensures header.Some? ==> header.value == request.value.headers["Authorization"]
  {
    if request.Some? && "Authorization" in request.value.headers then
      Some(request.value.headers["Authorization"])
    else None
  }

  /** `Auth.current_user`: left to subclasses, it always answers None here. */
  function CurrentUser(request: Option<Request>): (user: Option<User>)
    ensures user == None
  {
    None
  }
}
