/** The base authentication class of the API (0x01 `auth.py`): the path
    gate, the `Authorization` header accessor and the base `current_user`. */
module Auth {
  import opened Wrappers
  import opened PyStr

  /** The part of an HTTP request the authentication code reads. */
  datatype Request = Request(headers: map<string, string>)

  const AuthorizationHeaderName := "Authorization"

  /** An exempt pattern ending in `*` stands for a prefix. */
  predicate IsWildcard(pattern: string) {
    EndsWith(pattern, "*")
  }

  /** Whether one exempt pattern exempts `path`: a wildcard pattern by
      prefix (the pattern minus its `*`), any other pattern by exact
      equality, with no normalisation of either string. */
  function Exempts(pattern: string, path: string): (exempt: bool)
    ensures path == pattern ==> exempt
    ensures !IsWildcard(pattern) ==> (exempt <==> path == pattern)
    ensures IsWildcard(pattern) ==>
      (exempt <==> |pattern| - 1 <= |path| && forall i :: 0 <= i < |pattern| - 1 ==> path[i] == pattern[i])
  {
    if IsWildcard(pattern) then StartsWith(path, pattern[..|pattern| - 1])
    else path == pattern
  }

  /** The scan over the exempt patterns, in list order, stopping at the
      first pattern that exempts `path`. */
  function AnyExempts(path: string, patterns: seq<string>): (found: bool)
    ensures found <==> exists i :: 0 <= i < |patterns| && Exempts(patterns[i], path)
  {
    if patterns == [] then false
    else if Exempts(patterns[0], path) then true
    else
      var rest := AnyExempts(path, patterns[1..]);
      assert forall i :: 0 <= i < |patterns| - 1 ==> patterns[1..][i] == patterns[i + 1];
      rest
  }

  /** `Auth.require_auth(path, excluded_paths)`: a missing path, a missing
      list and an empty list all require authentication; otherwise the
      path is exempt exactly when some pattern exempts it. */
  function RequireAuth(path: Option<string>, excludedPaths: Option<seq<string>>): (required: bool)
    ensures path.None? ==> required
    ensures excludedPaths.None? || excludedPaths == Some([]) ==> required
    ensures path.Some? && excludedPaths.Some? ==>
      (!required <==> exists i :: 0 <= i < |excludedPaths.value| && Exempts(excludedPaths.value[i], path.value))
  {
    if path.None? then true
    else if excludedPaths.None? || excludedPaths.value == [] then true
    else !AnyExempts(path.value, excludedPaths.value)
  }

  /** Reordering the exempt patterns, or repeating them, never changes the
      decision: it depends only on which patterns occur in the list. */
  lemma RequireAuthIgnoresOrder(path: Option<string>, a: seq<string>, b: seq<string>)
    requires forall p :: p in a <==> p in b
    ensures RequireAuth(path, Some(a)) == RequireAuth(path, Some(b))
  {
    if path.Some? {
      ExemptionCarriesOver(path.value, a, b);
      ExemptionCarriesOver(path.value, b, a);
      if a != [] {
        assert a[0] in b;
      }
      if b != [] {
        assert b[0] in a;
      }
    }
  }

  /** An exempting pattern of `a` also occurs in `b` when `b` holds every
      pattern of `a`. */
  lemma ExemptionCarriesOver(path: string, a: seq<string>, b: seq<string>)
    requires forall p :: p in a ==> p in b
    ensures (exists i :: 0 <= i < |a| && Exempts(a[i], path)) ==>
            (exists j :: 0 <= j < |b| && Exempts(b[j], path))
  {
    if i :| 0 <= i < |a| && Exempts(a[i], path) {
      assert a[i] in a;
      var j :| 0 <= j < |b| && b[j] == a[i];
      assert Exempts(b[j], path);
    }
  }

  /** A pattern without a trailing `*` exempts only the identical path. */
  lemma ExactPatternExemptsOnlyItself(path: string, pattern: string)
    requires !IsWildcard(pattern)
    ensures RequireAuth(Some(path), Some([pattern])) <==> path != pattern
  {
  }

  /** There is no trailing-slash normalisation: the exact pattern
      `/api/v1/status/` does not exempt `/api/v1/status`. */
  lemma NoTrailingSlashNormalisation()
    ensures RequireAuth(Some("/api/v1/status"), Some(["/api/v1/status/"]))
    ensures !RequireAuth(Some("/api/v1/status/"), Some(["/api/v1/status/"]))
  {
    assert !IsWildcard("/api/v1/status/");
  }

  /** A wildcard pattern exempts every path that starts with the pattern
      minus its `*`, wherever it sits in the list. */
  lemma WildcardExemptsPrefix(path: string, patterns: seq<string>, i: nat)
    requires i < |patterns| && IsWildcard(patterns[i])
    requires StartsWith(path, patterns[i][..|patterns[i]| - 1])
    ensures !RequireAuth(Some(path), Some(patterns))
  {
    assert Exempts(patterns[i], path);
  }

  /** The lone pattern `*` exempts every present path. */
  lemma StarExemptsEveryPath(path: string, patterns: seq<string>)
    requires "*" in patterns
    ensures !RequireAuth(Some(path), Some(patterns))
  {
    var i :| 0 <= i < |patterns| && patterns[i] == "*";
    assert IsWildcard("*");
    WildcardExemptsPrefix(path, patterns, i);
  }

  // The status-wildcard examples: the pattern "/api/v1/status/" followed
  // by a star exempts "/api/v1/status/x" but not "/api/v1/other".
  lemma StatusWildcardExamples()
    ensures !RequireAuth(Some("/api/v1/status/x"), Some(["/api/v1/status/*"]))
    ensures RequireAuth(Some("/api/v1/other"), Some(["/api/v1/status/*"]))
  {
    var pattern := "/api/v1/status/*";
    assert IsWildcard(pattern);
    assert pattern[..|pattern| - 1] == "/api/v1/status/";
    assert StartsWith("/api/v1/status/x", "/api/v1/status/");
    assert !StartsWith("/api/v1/other", "/api/v1/status/");
  }

  /** `Auth.authorization_header(request)`: None without a request,
      otherwise the value of the `Authorization` header, or None when the
      request has none. */
  function AuthorizationHeader(request: Option<Request>): (header: Option<string>)
    ensures request.None? ==> header.None?
    ensures request.Some? ==> (header.Some? <==> AuthorizationHeaderName in request.value.headers)
    ensures header.Some? ==> request.Some? && header.value == request.value.headers[AuthorizationHeaderName]
  {
    if request.None? then None
    else if AuthorizationHeaderName in request.value.headers then Some(request.value.headers[AuthorizationHeaderName])
    else None
  }

  /** The base `Auth.current_user(request)` never identifies anyone. */
  function CurrentUser<U>(request: Option<Request>): (user: Option<U>)
    ensures user.None?
  {
    None
  }
}
