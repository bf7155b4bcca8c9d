/** Where a request's session token and basic credentials come from: the
    Authorization header, the `token` query parameter and the request body,
    with the header taking precedence; plus the per-request token cache. */
module SessionManager {
  import opened Common
  import opened ApiInterface

  /** The query parameter carrying a token, and the body keys of the
      credentials. `IApiInterface` declares none of `TOKEN_PARAM`,
      `SESSION_USER` and `SESSION_PASSWORD`; these values are the ones the
      model assumes for the program with them declared. What happens as
      written is in `GetTokenUndeclared`, `RequireTokenUndeclared` and
      `GetUserAndPasswordUndeclared`. */
  const TokenParam := "token"
  const SessionUser := "user"
  const SessionPassword := "password"

  /** What the server environment offers: the two server variables that may
      hold the header, the web server's own header list when that function
      exists, and the user and password the web server decoded itself. */
  datatype Server = Server(
    authorization: Option<string>,
    httpAuthorization: Option<string>,
    apacheHeaders: Option<seq<(string, string)>>,
    phpAuthUser: Option<string>,
    phpAuthPw: Option<string>)

  /** The scheme an authorisation failure asks the client to use. */
  datatype AuthScheme = Bearer

  /** `UndefinedConstant` is PHP's error on reading a class constant the
      interface does not declare. */
  datatype SessionError =
    | InvalidToken
    | Unauthorized(scheme: AuthScheme)
    | UndefinedConstant(name: string)

  // ---------------------------------------------------------------------------
  // The Authorization header
  // ---------------------------------------------------------------------------

  /** The word separators `ucwords` uses by default. */
  predicate IsWordSeparator(c: char)
  {
    c == ' ' || c == '\t' || c == '\r' || c == '\n' || c == '\U{C}' || c == '\U{B}'
  }

  /** The character `ucwords` leaves at `i`. */
  function UcwordsAt(s: string, i: nat): char
    requires i < |s|
  {
    if i == 0 || IsWordSeparator(s[i - 1]) then UpperChar(s[i]) else s[i]
  }

  /** `ucwords`: the first letter of every word in upper case. */
  function Ucwords(s: string): (r: string)
    ensures |r| == |s|
    ensures forall i | 0 <= i < |s| :: r[i] == UcwordsAt(s, i)
  {
    seq(|s|, i requires 0 <= i < |s| => UcwordsAt(s, i))
  }

  /** The value `array_combine` keeps for `key`: the last header whose
      capitalised name is `key`. */
  function LastHeader(headers: seq<(string, string)>, key: string): (r: Option<string>)
    ensures r.None? <==> forall i | 0 <= i < |headers| :: Ucwords(headers[i].0) != key
    ensures r.Some? ==> exists i | 0 <= i < |headers| ::
      && Ucwords(headers[i].0) == key && headers[i].1 == r.value
      && forall j | i < j < |headers| :: Ucwords(headers[j].0) != key
    decreases |headers|
  {
    if |headers| == 0 then None
    else
      var last := headers[|headers| - 1];
      if Ucwords(last.0) == key then Some(last.1)
      else
        var r := LastHeader(headers[..|headers| - 1], key);
        assert forall i | 0 <= i < |headers| - 1 :: headers[..|headers| - 1][i] == headers[i];
        r
  }

  /** `getAuthorizationHeader`: the first source that has the header, trimmed. */
  function AuthorizationHeader(server: Server): (r: Option<string>)
    ensures server.authorization.Some? ==> r == Some(Trim(server.authorization.value, IsPhpTrimChar))
    ensures server.authorization.None? && server.httpAuthorization.Some? ==>
      r == Some(Trim(server.httpAuthorization.value, IsPhpTrimChar))
    ensures r.Some? ==> |r.value| == 0 || (!IsPhpTrimChar(r.value[0]) && !IsPhpTrimChar(r.value[|r.value| - 1]))
  {
    var found :=
      if server.authorization.Some? then server.authorization
      else if server.httpAuthorization.Some? then server.httpAuthorization
      else if server.apacheHeaders.Some? then LastHeader(server.apacheHeaders.value, "Authorization")
      else None;
    match found
    case Some(v) => Some(Trim(v, IsPhpTrimChar))
    case None => None
  }

  /** PHP's `empty` on the header: absent, the empty string, or "0". */
  predicate IsEmpty(h: Option<string>)
  {
    h.None? || h.value == "" || h.value == "0"
  }

  // ---------------------------------------------------------------------------
  // `word\s(class+)` searched anywhere in a string
  // ---------------------------------------------------------------------------

  /** At `i` the text has `word`, one blank and a character of the class. */
  predicate MatchesAt(s: string, word: string, cls: char -> bool, i: int)
  {
    0 <= i && i + |word| + 1 < |s| && s[i..i + |word|] == word
    && IsPcreSpace(s[i + |word|]) && cls(s[i + |word| + 1])
  }

  /** The longest run of class characters starting at `j`. */
  function RunFrom(s: string, cls: char -> bool, j: nat): (r: string)
    requires j <= |s|
    ensures j + |r| <= |s| && r == s[j..j + |r|]
    ensures forall k | 0 <= k < |r| :: cls(r[k])
    ensures j + |r| == |s| || !cls(s[j + |r|])
    decreases |s| - j
  {
    if j < |s| && cls(s[j]) then [s[j]] + RunFrom(s, cls, j + 1) else []
  }

  /** Where the leftmost match at or after `i` starts. */
  function FirstMatch(s: string, word: string, cls: char -> bool, i: nat): (r: Option<nat>)
    ensures r.None? <==> forall k | i <= k :: !MatchesAt(s, word, cls, k)
    ensures r.Some? ==> i <= r.value && MatchesAt(s, word, cls, r.value)
    ensures r.Some? ==> forall j | i <= j < r.value :: !MatchesAt(s, word, cls, j)
    decreases |s| - i
  {
    if i + |word| + 1 >= |s| then None
    else if MatchesAt(s, word, cls, i) then Some(i)
    else FirstMatch(s, word, cls, i + 1)
  }

  /** `preg_match('/word\s(class+)/', s)` with its first group: the greedy run
      takes every class character after the leftmost match. */
  function Capture(s: string, word: string, cls: char -> bool): (r: Option<string>)
    ensures r.None? <==> forall k :: !MatchesAt(s, word, cls, k)
    ensures r.Some? ==> |r.value| > 0 && forall k | 0 <= k < |r.value| :: cls(r.value[k])
  {
    match FirstMatch(s, word, cls, 0)
    case None => None
    case Some(k) => Some(RunFrom(s, cls, k + |word| + 1))
  }

  /** The run at the start of a class token followed by a character outside
      the class is the token. */
  lemma {:induction false} RunOfToken(s: string, cls: char -> bool, j: nat, token: string, rest: string)
    requires j <= |s| && s[j..] == token + rest
    requires forall i | 0 <= i < |token| :: cls(token[i])
    requires |rest| == 0 || !cls(rest[0])
    ensures RunFrom(s, cls, j) == token
    decreases |token|
  {
    if |token| > 0 {
      assert s[j] == token[0];
      assert s[j + 1..] == token[1..] + rest;
      RunOfToken(s, cls, j + 1, token[1..], rest);
    } else if j < |s| {
      assert s[j] == rest[0];
    }
  }

  /** A header that starts with the word, a blank and a class token gives
      back that token. */
  lemma CaptureOfHeader(word: string, sp: char, token: string, rest: string, cls: char -> bool)
    requires IsPcreSpace(sp) && |token| > 0 && forall i | 0 <= i < |token| :: cls(token[i])
    requires |rest| == 0 || !cls(rest[0])
    ensures Capture(word + [sp] + token + rest, word, cls) == Some(token)
  {
    var s := word + [sp] + token + rest;
    var n := |word|;
    HeaderShape(word, sp, token, rest);
    assert MatchesAt(s, word, cls, 0);
    RunOfToken(s, cls, n + 1, token, rest);
  }

  lemma HeaderShape(word: string, sp: char, token: string, rest: string)
    requires |token| > 0
    ensures var s := word + [sp] + token + rest; var n := |word|;
      n + 1 < |s| && s[..n] == word && s[n] == sp && s[n + 1] == token[0] && s[n + 1..] == token + rest
  {
    var s := word + [sp] + token + rest;
    assert s == word + ([sp] + (token + rest));
  }

  // ---------------------------------------------------------------------------
  // getToken and requireToken
  // ---------------------------------------------------------------------------

  /** `preg_match('/[0-9A-Fa-f]+/', s)`: some hex digit anywhere. */
  predicate ContainsHex(s: string)
  {
    exists i | 0 <= i < |s| :: IsHexDigit(s[i])
  }

  /** `getToken`: a non-empty header decides alone (the hex run after the first
      `Bearer` and a blank); otherwise the query parameter is taken verbatim when
      it holds a hex digit; with neither there is no token. */
  function GetToken(server: Server, query: map<string, string>): (r: Result<Option<string>, SessionError>)
    ensures r.Ok? && r.value.Some? ==> |r.value.value| > 0
    ensures r.Err? ==> r.error == InvalidToken
  {
    var header := AuthorizationHeader(server);
    if !IsEmpty(header) then
      match Capture(header.value, "Bearer", IsHexDigit)
      case Some(t) => Ok(Some(t))
      case None => Err(InvalidToken)
    else if TokenParam in query then
      var t := query[TokenParam];
      if ContainsHex(t) then Ok(Some(t)) else Err(InvalidToken)
    else Ok(None)
  }

  /** A header that is present decides, whatever the query holds. */
  lemma HeaderTakesPrecedence(server: Server, query: map<string, string>, query': map<string, string>)
    requires !IsEmpty(AuthorizationHeader(server))
    ensures GetToken(server, query) == GetToken(server, query')
    ensures GetToken(server, query).Ok? <==> exists k :: MatchesAt(AuthorizationHeader(server).value, "Bearer", IsHexDigit, k)
  {
  }

  /** Without a header the parameter is returned unchanged exactly when it
      holds a hex digit. */
  lemma ParamTokenVerbatim(server: Server, query: map<string, string>)
    requires IsEmpty(AuthorizationHeader(server)) && TokenParam in query
    ensures GetToken(server, query) == Ok(Some(query[TokenParam])) <==> ContainsHex(query[TokenParam])
    ensures !ContainsHex(query[TokenParam]) ==> GetToken(server, query) == Err(InvalidToken)
  {
  }

  /** With neither a header nor a parameter there is no token and no error. */
  lemma NoTokenAnywhere(server: Server, query: map<string, string>)
    requires IsEmpty(AuthorizationHeader(server)) && TokenParam !in query
    ensures GetToken(server, query) == Ok(None)
  {
  }

  /** The header the client sends, `Bearer` and a blank before a hex token,
      gives back that token. */
  lemma BearerRoundTrip(server: Server, query: map<string, string>, token: string)
    requires |token| > 0 && forall i | 0 <= i < |token| :: IsHexDigit(token[i])
    requires AuthorizationHeader(server) == Some("Bearer" + [' '] + token)
    ensures GetToken(server, query) == Ok(Some(token))
  {
    var h := "Bearer" + [' '] + token;
    BearerCapture(token);
    HeaderToken(server, query, h);
  }

  lemma BearerCapture(token: string)
    requires |token| > 0 && forall i | 0 <= i < |token| :: IsHexDigit(token[i])
    ensures var h := "Bearer" + [' '] + token;
      !IsEmpty(Some(h)) && Capture(h, "Bearer", IsHexDigit) == Some(token)
  {
    var h := "Bearer" + [' '] + token;
    CaptureOfHeader("Bearer", ' ', token, "", IsHexDigit);
    assert h + "" == h;
    assert |h| > 1;
  }

  lemma HeaderToken(server: Server, query: map<string, string>, h: string)
    requires AuthorizationHeader(server) == Some(h) && !IsEmpty(Some(h))
    requires Capture(h, "Bearer", IsHexDigit).Some?
    ensures GetToken(server, query) == Ok(Some(Capture(h, "Bearer", IsHexDigit).value))
  {
  }

  /** `requireToken`: a cached token is returned as it is; otherwise the token
      found is checked by the sessions store (`check`) and cached when valid.
      Returns the outcome and the cache afterwards. */
  function RequireToken<T>(cache: Option<T>, server: Server, query: map<string, string>, check: string -> Result<T, SessionError>)
    : (r: (Result<T, SessionError>, Option<T>))
    ensures cache.Some? ==> r == (Ok(cache.value), cache)
    ensures r.0.Ok? ==> r.1 == Some(r.0.value)
    ensures r.0.Err? ==> r.1 == cache
    ensures cache.None? && GetToken(server, query) == Ok(None) ==> r.0 == Err(Unauthorized(Bearer))
    ensures cache.None? && GetToken(server, query).Err? ==> r.0 == Err(InvalidToken)
    ensures cache.None? && GetToken(server, query).Ok? && GetToken(server, query).value.Some? ==>
      r.0 == check(GetToken(server, query).value.value)
  {
    RequireTokenFrom(cache, GetToken(server, query), check)
  }

  /** The body of `requireToken`, given what `getToken` gave. */
  function RequireTokenFrom<T>(cache: Option<T>, found: Result<Option<string>, SessionError>, check: string -> Result<T, SessionError>)
    : (r: (Result<T, SessionError>, Option<T>))
    ensures cache.Some? ==> r == (Ok(cache.value), cache)
    ensures r.0.Ok? ==> r.1 == Some(r.0.value)
    ensures r.0.Err? ==> r.1 == cache
    ensures cache.None? && found == Ok(None) ==> r.0 == Err(Unauthorized(Bearer))
    ensures cache.None? && found.Err? ==> r.0 == Err(found.error)
    ensures cache.None? && found.Ok? && found.value.Some? ==> r.0 == check(found.value.value)
  {
    if cache.Some? then (Ok(cache.value), cache)
    else
      match found
      case Err(e) => (Err(e), cache)
      case Ok(None) => (Err(Unauthorized(Bearer)), cache)
      case Ok(Some(t)) =>
        match check(t)
        case Ok(v) => (Ok(v), Some(v))
        case Err(e) => (Err(e), cache)
  }

  /** `getToken` as written. `IApiInterface` declares no `TOKEN_PARAM`, so
      once the header is empty, reading the constant stops the request,
      whatever the query holds. */
  function GetTokenUndeclared(server: Server, query: map<string, string>): (r: Result<Option<string>, SessionError>)
    ensures r == GetToken(server, query) <==> !IsEmpty(AuthorizationHeader(server))
    ensures r.Ok? ==> r.value.Some?
  {
    var header := AuthorizationHeader(server);
    if IsEmpty(header) then Err(UndefinedConstant("TOKEN_PARAM"))
    else
      match Capture(header.value, "Bearer", IsHexDigit)
      case Some(t) => Ok(Some(t))
      case None => Err(InvalidToken)
  }

  /** `requireToken` as written: the Bearer challenge is never reached, since
      without a header the undeclared constant fails first. With a header it
      behaves as `RequireToken`. */
  function RequireTokenUndeclared<T>(cache: Option<T>, server: Server, query: map<string, string>, check: string -> Result<T, SessionError>)
    : (r: (Result<T, SessionError>, Option<T>))
    ensures !IsEmpty(AuthorizationHeader(server)) || cache.Some? ==> r == RequireToken(cache, server, query, check)
    ensures cache.None? && IsEmpty(AuthorizationHeader(server)) ==>
      r == (Err(UndefinedConstant("TOKEN_PARAM")), None)
    ensures (forall t :: check(t) != Err(Unauthorized(Bearer))) ==> r.0 != Err(Unauthorized(Bearer))
  {
    RequireTokenFrom(cache, GetTokenUndeclared(server, query), check)
  }

  /** Once a token is accepted, every later call in the request returns it,
      whatever it is given. */
  lemma RequireTokenStable<T>(cache: Option<T>, server: Server, query: map<string, string>,
                             check: string -> Result<T, SessionError>,
                             server': Server, query': map<string, string>, check': string -> Result<T, SessionError>)
    requires RequireToken(cache, server, query, check).0.Ok?
    ensures var (r, c) := RequireToken(cache, server, query, check);
      RequireToken(c, server', query', check') == (r, c)
  {
  }

  // ---------------------------------------------------------------------------
  // getUserAndPassword
  // ---------------------------------------------------------------------------

  /** The characters of base64 text. */
  predicate IsBase64Char(c: char)
  {
    IsAlnum(c) || c == '+' || c == '/' || c == '='
  }

  /** The class the source's Basic pattern uses: hex digits and `=`. */
  predicate IsHexOrPad(c: char)
  {
    IsHexDigit(c) || c == '='
  }

  /** Strings as the JSON values a PHP array of strings holds. */
  function JStrs(parts: seq<string>): (r: seq<Json>)
    ensures |r| == |parts| && forall i | 0 <= i < |r| :: r[i] == JStr(parts[i])
  {
    seq(|parts|, i requires 0 <= i < |parts| => JStr(parts[i]))
  }

  /** The pieces of the decoded Basic text split on `:`; a failed decode is
      PHP's `false`, which splits as the empty string. */
  function FromBasic(decode: string -> Option<string>, basic: string): (r: seq<Json>)
    ensures |r| >= 1 && forall i | 0 <= i < |r| :: r[i].JStr? && ':' !in r[i].s
    ensures decode(basic).None? ==> r == [JStr("")]
  {
    var text := match decode(basic) case Some(t) => t case None => "";
    JStrs(Split(text, ':'))
  }

  /** The credentials: the pair the web server decoded; else the Basic header,
      decoded (`decode` stands for `base64_decode`, `None` for its failure) and
      split on `:`; else the body's user and password; else two nulls. The
      class of the Basic run is a parameter. */
  function Credentials(server: Server, body: map<string, Json>, decode: string -> Option<string>, cls: char -> bool): (r: seq<Json>)
    ensures |r| >= 1
    ensures server.phpAuthUser.Some? && server.phpAuthPw.Some? ==>
      r == [JStr(server.phpAuthUser.value), JStr(server.phpAuthPw.value)]
  {
    if server.phpAuthUser.Some? && server.phpAuthPw.Some? then
      [JStr(server.phpAuthUser.value), JStr(server.phpAuthPw.value)]
    else
      var header := AuthorizationHeader(server);
      var basic := if IsEmpty(header) then None else Capture(header.value, "Basic", cls);
      if basic.Some? then FromBasic(decode, basic.value)
      else if IsSet(body, SessionUser) && IsSet(body, SessionPassword) then
        [body[SessionUser], body[SessionPassword]]
      else [JNull, JNull]
  }

  /** PHP's `isset` on a body key: present and not null. */
  predicate IsSet(body: map<string, Json>, k: string)
  {
    k in body && body[k] != JNull
  }

  /** `getUserAndPassword`, with the Basic run read as base64 text. */
  function GetUserAndPassword(server: Server, body: map<string, Json>, decode: string -> Option<string>): (r: seq<Json>)
    ensures |r| >= 1
  {
    Credentials(server, body, decode, IsBase64Char)
  }

  /** `getUserAndPassword` as written: the Basic run may only hold hex digits
      and `=`. */
  function GetUserAndPasswordAsWritten(server: Server, body: map<string, Json>, decode: string -> Option<string>): (r: seq<Json>)
    ensures |r| >= 1
  {
    Credentials(server, body, decode, IsHexOrPad)
  }

  /** `getUserAndPassword` as written, with its hex-only capture.
      `IApiInterface` declares neither `SESSION_USER` nor `SESSION_PASSWORD`,
      so a request that reaches the body check stops with an error. */
  function GetUserAndPasswordUndeclared(server: Server, body: map<string, Json>, decode: string -> Option<string>)
    : (r: Result<seq<Json>, SessionError>)
    ensures r.Ok? ==> r.value == GetUserAndPasswordAsWritten(server, body, decode)
    ensures r.Ok? ==> forall i | 0 <= i < |r.value| :: r.value[i].JStr?
    ensures r.Err? ==> r.error == UndefinedConstant("SESSION_USER")
  {
    if server.phpAuthUser.Some? && server.phpAuthPw.Some? then
      Ok([JStr(server.phpAuthUser.value), JStr(server.phpAuthPw.value)])
    else
      var header := AuthorizationHeader(server);
      var basic := if IsEmpty(header) then None else Capture(header.value, "Basic", IsHexOrPad);
      if basic.Some? then Ok(FromBasic(decode, basic.value))
      else Err(UndefinedConstant("SESSION_USER"))
  }

  /** As written, the body is never read: the outcome does not depend on it,
      and it is an error exactly when the program with the keys declared
      would have turned to the body. */
  lemma UndeclaredIgnoresBody(server: Server, body: map<string, Json>, body': map<string, Json>, decode: string -> Option<string>)
    ensures GetUserAndPasswordUndeclared(server, body, decode) == GetUserAndPasswordUndeclared(server, body', decode)
    ensures GetUserAndPasswordUndeclared(server, body, decode).Err? <==>
      GetUserAndPasswordAsWritten(server, map[], decode) == [JNull, JNull]
  {
  }

  /** The sources in order: a Basic header wins over the body; the body is
      used only when no Basic credentials are found; otherwise two nulls. */
  lemma CredentialsOrder(server: Server, body: map<string, Json>, decode: string -> Option<string>)
    requires server.phpAuthUser.None? || server.phpAuthPw.None?
    ensures var h := AuthorizationHeader(server);
      var basic := !IsEmpty(h) && Capture(h.value, "Basic", IsBase64Char).Some?;
      && (basic ==> forall i | 0 <= i < |GetUserAndPassword(server, body, decode)| ::
            GetUserAndPassword(server, body, decode)[i].JStr?)
      && (!basic && IsSet(body, SessionUser) && IsSet(body, SessionPassword) ==>
            GetUserAndPassword(server, body, decode) == [body[SessionUser], body[SessionPassword]])
      && (!basic && !(IsSet(body, SessionUser) && IsSet(body, SessionPassword)) ==>
            GetUserAndPassword(server, body, decode) == [JNull, JNull])
  {
  }

  /** The strings a list of JSON strings holds. */
  function Texts(r: seq<Json>): (texts: seq<string>)
    requires forall i | 0 <= i < |r| :: r[i].JStr?
    ensures |texts| == |r| && forall i | 0 <= i < |r| :: r[i] == JStr(texts[i])
  {
    seq(|r|, i requires 0 <= i < |r| => r[i].s)
  }

  /** The decoded Basic text comes back split on `:`, nothing lost. */
  lemma BasicSplit(server: Server, body: map<string, Json>, decode: string -> Option<string>, text: string)
    requires server.phpAuthUser.None? || server.phpAuthPw.None?
    requires var h := AuthorizationHeader(server);
      !IsEmpty(h) && Capture(h.value, "Basic", IsBase64Char).Some?
      && decode(Capture(h.value, "Basic", IsBase64Char).value) == Some(text)
    ensures var r := GetUserAndPassword(server, body, decode);
      && (forall i | 0 <= i < |r| :: r[i].JStr? && ':' !in r[i].s)
      && Join(Texts(r), ':') == text
  {
    var r := GetUserAndPassword(server, body, decode);
    assert r == JStrs(Split(text, ':'));
    assert Texts(r) == Split(text, ':');
  }

  /** A token whose second character is outside the class is cut after its
      first. */
  lemma CaptureCut(word: string, sp: char, token: string, rest: string, cls: char -> bool)
    requires IsPcreSpace(sp) && |token| >= 2 && cls(token[0]) && !cls(token[1])
    ensures Capture(word + [sp] + token + rest, word, cls) == Some(token[..1])
  {
    assert word + [sp] + token + rest == word + [sp] + token[..1] + (token[1..] + rest) by {
      assert token == token[..1] + token[1..];
    }
    assert (token[1..] + rest)[0] == token[1];
    CaptureOfHeader(word, sp, token[..1], token[1..] + rest, cls);
  }

  /** A Basic header whose base64 text has a letter past `F` right after a hex
      first character (as `dXNlcjpwYXNz`, the encoding of `user:pass`, does):
      as written only that first character is captured; read as base64 the
      whole text is. */
  lemma BasicCaptureAsWritten(token: string, rest: string)
    requires |token| >= 2 && IsHexDigit(token[0]) && 'G' <= token[1] <= 'Z'
    requires forall i | 0 <= i < |token| :: IsBase64Char(token[i])
    requires |rest| == 0 || !IsBase64Char(rest[0])
    ensures Capture("Basic" + [' '] + token + rest, "Basic", IsHexOrPad) == Some(token[..1])
    ensures Capture("Basic" + [' '] + token + rest, "Basic", IsBase64Char) == Some(token)
  {
    CaptureOfHeader("Basic", ' ', token, rest, IsBase64Char);
    CaptureCut("Basic", ' ', token, rest, IsHexOrPad);
  }

  /** What the finding costs a client: as written the credentials come from
      decoding the first character alone. */
  lemma BasicCredentialsAsWritten(server: Server, body: map<string, Json>, decode: string -> Option<string>, token: string)
    requires server.phpAuthUser.None?
    requires AuthorizationHeader(server) == Some("Basic" + [' '] + token)
    requires |token| >= 2 && IsHexDigit(token[0]) && 'G' <= token[1] <= 'Z'
    requires forall i | 0 <= i < |token| :: IsBase64Char(token[i])
    ensures GetUserAndPasswordAsWritten(server, body, decode) == FromBasic(decode, token[..1])
    ensures GetUserAndPassword(server, body, decode) == FromBasic(decode, token)
  {
    BasicCaptures(token);
    CredentialsOfBasic(server, body, decode, IsHexOrPad, token[..1]);
    CredentialsOfBasic(server, body, decode, IsBase64Char, token);
  }

  /** The two classes read a Basic header that ends with its token. */
  lemma BasicCaptures(token: string)
    requires |token| >= 2 && IsHexDigit(token[0]) && 'G' <= token[1] <= 'Z'
    requires forall i | 0 <= i < |token| :: IsBase64Char(token[i])
    ensures var h := "Basic" + [' '] + token;
      Capture(h, "Basic", IsHexOrPad) == Some(token[..1]) && Capture(h, "Basic", IsBase64Char) == Some(token)
  {
    var h := "Basic" + [' '] + token;
    assert h + "" == h;
    BasicCaptureAsWritten(token, "");
  }

  /** Without a pair from the web server, a Basic run found in the header
      decides the credentials. */
  lemma CredentialsOfBasic(server: Server, body: map<string, Json>, decode: string -> Option<string>, cls: char -> bool, run: string)
    requires server.phpAuthUser.None?
    requires AuthorizationHeader(server).Some?
    requires Capture(AuthorizationHeader(server).value, "Basic", cls) == Some(run)
    ensures Credentials(server, body, decode, cls) == FromBasic(decode, run)
  {
  }
}
