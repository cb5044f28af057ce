/** The `Basic` HTTP authentication scheme of RFC 7617 section 2 as the
    API implements it (0x02 `basic_auth.py`): strip the scheme, decode
    Base64 and UTF-8, split `user-id ":" password` at the first colon,
    then look the user up and check the password. Every malformed stage
    yields None. */
module BasicAuth {
  import opened Wrappers
  import opened PyStr
  import Auth

  newtype byte = b: int | 0 <= b < 256

  /** The two library decoders, taken as given partial functions: None is
      the exception the library raises on malformed input (Base64 of
      RFC 4648 section 4, and UTF-8). */
  datatype Codecs = Codecs(base64Decode: string -> Option<seq<byte>>, utf8Decode: seq<byte> -> Option<string>)

  /** The user store the credentials are checked against: `search` gives
      the users whose email is the argument, in store order, or None where
      `User.search` raises; `isValidPassword` is `User.is_valid_password`. */
  datatype Directory<!U> = Directory(search: string -> Option<seq<U>>, isValidPassword: (U, string) -> bool)

  const Scheme := "Basic "

  /** `extract_base64_authorization_header`: None unless the header is
      present and starts with `Basic `; then exactly the text after those
      six characters, which may be empty. */
  function ExtractBase64AuthorizationHeader(header: Option<string>): (token: Option<string>)
    ensures token.Some? <==> header.Some? && StartsWith(header.value, Scheme)
    ensures token.Some? ==> header.value == Scheme + token.value
  {
    if header.None? || !StartsWith(header.value, Scheme) then None
    else
      var h := header.value;
      assert h == "Basic" + [' '] + h[|Scheme|..];
      SplitOnceOfJoin("Basic", ' ', h[|Scheme|..]);
      Some(SplitOnce(h, ' ')[1])
  }

  /** `decode_base64_authorization_header`: None for a missing token, for
      a token that is not Base64 and for bytes that are not UTF-8;
      otherwise the decoded text. It never raises. */
  function DecodeBase64AuthorizationHeader(token: Option<string>, codecs: Codecs): (decoded: Option<string>)
    ensures token.None? ==> decoded.None?
    ensures token.Some? && codecs.base64Decode(token.value).None? ==> decoded.None?
    ensures decoded.Some? <==>
      token.Some? && codecs.base64Decode(token.value).Some? &&
      codecs.utf8Decode(codecs.base64Decode(token.value).value).Some?
    ensures decoded.Some? ==> decoded == codecs.utf8Decode(codecs.base64Decode(token.value).value)
  {
    if token.None? then None
    else match codecs.base64Decode(token.value)
      case None => None
      case Some(bytes) => codecs.utf8Decode(bytes)
  }

  /** `extract_user_credentials`: both None for missing text or text
      without a colon; otherwise the text before the first colon (which
      has none) and the whole remainder (which may have more). */
  function ExtractUserCredentials(decoded: Option<string>): (credentials: (Option<string>, Option<string>))
    ensures credentials.0.Some? <==> credentials.1.Some?
    ensures credentials.0.Some? <==> decoded.Some? && ':' in decoded.value
    ensures credentials.0.Some? ==>
      ':' !in credentials.0.value && decoded.value == credentials.0.value + ":" + credentials.1.value
  {
    if decoded.None? then (None, None)
    else
      var parts := SplitOnce(decoded.value, ':');
      if |parts| != 2 then (None, None) else (Some(parts[0]), Some(parts[1]))
  }

  /** Joining an email that has no colon to any password with `:` and
      extracting the credentials gives the two back unchanged. */
  lemma {:induction false} ExtractUserCredentialsRoundTrip(email: string, password: string)
    requires ':' !in email
    ensures ExtractUserCredentials(Some(email + ":" + password)) == (Some(email), Some(password))
  {
    assert email + ":" + password == email + [':'] + password;
    SplitOnceOfJoin(email, ':', password);
  }

  /** `user_object_from_credentials`: a user only when both credentials are
      present, the search succeeds with at least one user, and the
      password check passes for the FIRST user found; further users with
      the same email are not looked at. */
  function UserObjectFromCredentials<U>(email: Option<string>, password: Option<string>, directory: Directory<U>): (user: Option<U>)
    ensures user.Some? <==>
      email.Some? && password.Some? &&
      directory.search(email.value).Some? && |directory.search(email.value).value| > 0 &&
      directory.isValidPassword(directory.search(email.value).value[0], password.value)
    ensures user.Some? ==> user.value == directory.search(email.value).value[0]
  {
    if email.None? || password.None? then None
    else match directory.search(email.value)
      case None => None
      case Some(users) =>
        if |users| == 0 then None
        else if !directory.isValidPassword(users[0], password.value) then None
        else Some(users[0])
  }

  /** A second user with the same email does not make the check fail: the
      first one decides. */
  lemma SeveralMatchesFirstDecides<U>(email: string, password: string, directory: Directory<U>, first: U, others: seq<U>)
    requires directory.search(email) == Some([first] + others)
    ensures UserObjectFromCredentials(Some(email), Some(password), directory) ==
            if directory.isValidPassword(first, password) then Some(first) else None
  {
  }

  /** `BasicAuth.current_user(request)`: None as soon as any stage gives
      None; otherwise the result of `user_object_from_credentials` on the
      extracted pair. */
  function CurrentUser<U>(request: Option<Auth.Request>, codecs: Codecs, directory: Directory<U>): (user: Option<U>)
    ensures request.None? ==> user.None?
    ensures Auth.AuthorizationHeader(request).None? ==> user.None?
    ensures ExtractBase64AuthorizationHeader(Auth.AuthorizationHeader(request)).None? ==> user.None?
    ensures DecodeBase64AuthorizationHeader(ExtractBase64AuthorizationHeader(Auth.AuthorizationHeader(request)), codecs).None? ==> user.None?
    ensures
      var credentials := ExtractUserCredentials(
        DecodeBase64AuthorizationHeader(ExtractBase64AuthorizationHeader(Auth.AuthorizationHeader(request)), codecs));
      (credentials.0.None? ==> user.None?) &&
      (credentials.0.Some? ==> user == UserObjectFromCredentials(credentials.0, credentials.1, directory))
  {
    if request.None? then None
    else
      var header := Auth.AuthorizationHeader(request);
      if header.None? then None
      else
        var token := ExtractBase64AuthorizationHeader(header);
        if token.None? then None
        else
          var decoded := DecodeBase64AuthorizationHeader(token, codecs);
          if decoded.None? then None
          else
            var credentials := ExtractUserCredentials(decoded);
            if credentials.0.None? || credentials.1.None? then None
            else UserObjectFromCredentials(credentials.0, credentials.1, directory)
  }

  /** A request whose `Authorization` header is `Basic ` followed by a
      token that decodes to `email:password` (with no colon in the email)
      is authenticated exactly as the pair itself would be. */
  lemma WellFormedHeaderAuthenticates<U>(
    request: Auth.Request, token: string, bytes: seq<byte>, email: string, password: string,
    codecs: Codecs, directory: Directory<U>)
    requires Auth.AuthorizationHeaderName in request.headers
    requires request.headers[Auth.AuthorizationHeaderName] == Scheme + token
    requires codecs.base64Decode(token) == Some(bytes)
    requires codecs.utf8Decode(bytes) == Some(email + ":" + password)
    requires ':' !in email
    ensures CurrentUser(Some(request), codecs, directory) ==
            UserObjectFromCredentials(Some(email), Some(password), directory)
  {
    var header := Scheme + token;
    assert StartsWith(header, Scheme);
    assert header[|Scheme|..] == token;
    assert ExtractBase64AuthorizationHeader(Some(header)) == Some(token);
    ExtractUserCredentialsRoundTrip(email, password);
  }

  /** A header with another scheme (or none) never authenticates. */
  lemma OtherSchemeIsDenied<U>(request: Auth.Request, codecs: Codecs, directory: Directory<U>)
    requires Auth.AuthorizationHeaderName in request.headers
    requires !StartsWith(request.headers[Auth.AuthorizationHeaderName], Scheme)
    ensures CurrentUser(Some(request), codecs, directory).None?
  {
  }
}
