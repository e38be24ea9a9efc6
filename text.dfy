/** The few Python `str` operations the authentication code relies on. */
module Text {

  /** `s.startswith(p)` */
  predicate StartsWith(s: string, p: string) {
    |p| <= |s| && s[..|p|] == p
  }

  /** `s.endswith(c)` for a one-character suffix */
  predicate EndsWith(s: string, c: char) {
    |s| > 0 && s[|s| - 1] == c
  }

  /** Python's slice `s[:n]` for a non-negative `n`: the first `n` characters, or all of `s`. */
  function Take(s: string, n: nat): (r: string)
    ensures |r| == if n <= |s| then n else |s|
    ensures StartsWith(s, r)
  {
    if n <= |s| then s[..n] else s
  }

  /** Slice-then-compare is a prefix test: `s[:|p|] == p` exactly when `s` starts with `p`. */
  lemma TakeIsPrefixTest(s: string, p: string)
    ensures Take(s, |p|) == p <==> StartsWith(s, p)
  {
  }

  /** The path normalisation shared by both `require_auth` generations:
      a `/` is appended unless the path already ends with one. */
  function WithTrailingSlash(path: string): (r: string)
    ensures EndsWith(r, '/')
    ensures StartsWith(r, path) && |r| <= |path| + 1
    ensures EndsWith(path, '/') ==> r == path
  {
    if EndsWith(path, '/') then path else path + "/"
  }

  /** Normalising is idempotent, and a path without a trailing `/` normalises
      to the same string as the path with one. */
  lemma WithTrailingSlashTolerant(path: string)
    ensures WithTrailingSlash(WithTrailingSlash(path)) == WithTrailingSlash(path)
    ensures !EndsWith(path, '/') ==> WithTrailingSlash(path + "/") == WithTrailingSlash(path)
  {
  }
}
