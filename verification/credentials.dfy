/** The git-credential protocol: the query for a lookup and the answer of a helper. */
module Credentials {
  import opened Wrappers
  import opened Text
  import opened Decimals
  import opened Splitting
  import opened LineText
  import opened Utf8Text
  import opened Urls

  const MAX_CREDENTIAL_FIELD_LEN: nat := 2048
  const MAX_CREDENTIAL_OUTPUT_LEN: nat := 8192
  const MAX_LFS_SESSION_TOKEN_LEN: nat := 1024

  datatype CredentialError =
    | UrlInvalid | UrlNotHttp | UrlFragment | UrlCredentials | UrlQuery | UrlInsecure
    | FieldTooLong | FieldBlankOrPadded | FieldControl
    | TooMuchOutput | NotUtf8 | MalformedOutput | NoPassword | DifferentCredential
    | TokenTooLong | TokenBlankOrPadded | TokenWhitespace

  // ----- Lookups -----

  datatype Lookup = Lookup(lfsUrl: Url, username: string)

  /** `validate_lfs_credential_url`. */
  function ValidateLfsCredentialUrl(lib: UrlLibrary, value: string, allowInsecureHttp: bool): Result<Url, CredentialError> {
    match lib.parse(value)
    case None => Failure(UrlInvalid)
    case Some(u) =>
      if !IsHttp(u) || u.host.None? then Failure(UrlNotHttp)
      else if u.fragment.Some? then Failure(UrlFragment)
      else if u.username != "" || u.password.Some? then Failure(UrlCredentials)
      else if u.query.Some? then Failure(UrlQuery)
      else if !allowInsecureHttp && !UsesProtectedTransport(u) then Failure(UrlInsecure)
      else Success(u)
  }

  predicate NoControl(s: string) { forall i :: 0 <= i < |s| ==> !IsControl(s[i]) }

  /** `validate_credential_field`. */
  function FieldError(value: string): Option<CredentialError> {
    if ByteLen(value) > MAX_CREDENTIAL_FIELD_LEN then Some(FieldTooLong)
    else if Trim(value) == "" || |Trim(value)| != |value| then Some(FieldBlankOrPadded)
    else if !NoControl(value) then Some(FieldControl)
    else None
  }

  /** `GitCredentialLookup::with_username`. */
  function NewLookup(lib: UrlLibrary, lfsUrl: string, username: string): Result<Lookup, CredentialError> {
    match ValidateLfsCredentialUrl(lib, lfsUrl, false)
    case Failure(e) => Failure(e)
    case Success(u) =>
      match FieldError(username)
      case Some(e) => Failure(e)
      case None => Success(Lookup(u, username))
  }

  const DEFAULT_GIT_CREDENTIAL_USERNAME := "lfscloud"

  /** `GitCredentialLookup::new_with_insecure_http`: the default user name, and plain HTTP if it is opted in to. */
  function NewLookupWithInsecureHttp(lib: UrlLibrary, lfsUrl: string, allowInsecureHttp: bool): Result<Lookup, CredentialError> {
    match ValidateLfsCredentialUrl(lib, lfsUrl, allowInsecureHttp)
    case Failure(e) => Failure(e)
    case Success(u) => Success(Lookup(u, DEFAULT_GIT_CREDENTIAL_USERNAME))
  }

  /** The URLs of lookups: HTTP with a host and without credentials, query and fragment, and HTTPS unless the host is a
      loopback address or plain HTTP is allowed. */
  predicate IsCredentialUrl(u: Url, allowInsecureHttp: bool) {
    (u.scheme == "https" || u.scheme == "http") && u.host.Some? && u.username == "" && u.password.None?
    && u.query.None? && u.fragment.None? && (u.scheme == "https" || u.host.value.loopback || allowInsecureHttp)
  }

  lemma CredentialUrlsAreExact(lib: UrlLibrary, lfsUrl: string, allowInsecureHttp: bool, u: Url)
    ensures ValidateLfsCredentialUrl(lib, lfsUrl, allowInsecureHttp) == Success(u)
        <==> lib.parse(lfsUrl) == Some(u) && IsCredentialUrl(u, allowInsecureHttp)
  {
  }

  /** At most 2048 bytes, not blank, without white space at either end and without control characters. */
  predicate IsCredentialField(value: string) {
    value != "" && ByteLen(value) <= 2048 && !IsWhitespace(value[0]) && !IsWhitespace(value[|value| - 1]) && NoControl(value)
  }

  lemma CredentialFieldsAreExact(value: string)
    ensures FieldError(value).None? <==> IsCredentialField(value)
  {
    if IsCredentialField(value) { TrimIsIdentity(value); }
  }

  /** Which lookups can be made: the guarded constructor checks the user name, the other one supplies it. */
  lemma LookupsAreExact(lib: UrlLibrary, lfsUrl: string, username: string, allowInsecureHttp: bool, l: Lookup)
    ensures NewLookup(lib, lfsUrl, username) == Success(l)
        <==> lib.parse(lfsUrl) == Some(l.lfsUrl) && IsCredentialUrl(l.lfsUrl, false)
             && l.username == username && IsCredentialField(username)
    ensures NewLookupWithInsecureHttp(lib, lfsUrl, allowInsecureHttp) == Success(l)
        <==> lib.parse(lfsUrl) == Some(l.lfsUrl) && IsCredentialUrl(l.lfsUrl, allowInsecureHttp) && l.username == "lfscloud"
  {
    CredentialUrlsAreExact(lib, lfsUrl, false, l.lfsUrl);
    CredentialUrlsAreExact(lib, lfsUrl, allowInsecureHttp, l.lfsUrl);
    CredentialFieldsAreExact(username);
  }

  /** What every lookup satisfies. */
  predicate ValidLookup(l: Lookup) {
    Plain(l.lfsUrl) && HasHost(l.lfsUrl) && NoControl(Path(l.lfsUrl)) && l.username != "" && NoControl(l.username)
  }

  lemma CredentialUrlIsClean(lib: UrlLibrary, lfsUrl: string, allowInsecureHttp: bool)
    requires Lawful(lib) && ValidateLfsCredentialUrl(lib, lfsUrl, allowInsecureHttp).Success?
    ensures var u := ValidateLfsCredentialUrl(lib, lfsUrl, allowInsecureHttp).value;
            Plain(u) && HasHost(u) && NoControl(Path(u))
  {
    var u := ValidateLfsCredentialUrl(lib, lfsUrl, allowInsecureHttp).value;
    assert YieldsKeptPath(lib, lfsUrl);
    KeptIsSafe(lib, u.segments);
    JoinIsPlain(u.segments);
  }

  /** However a lookup is made, its attributes are free of control characters. */
  lemma NewLookupIsValid(lib: UrlLibrary, lfsUrl: string, username: string, allowInsecureHttp: bool)
    requires Lawful(lib)
    ensures NewLookup(lib, lfsUrl, username).Success? ==> ValidLookup(NewLookup(lib, lfsUrl, username).value)
    ensures NewLookupWithInsecureHttp(lib, lfsUrl, allowInsecureHttp).Success? ==>
              ValidLookup(NewLookupWithInsecureHttp(lib, lfsUrl, allowInsecureHttp).value)
  {
    if NewLookup(lib, lfsUrl, username).Success? {
      CredentialUrlIsClean(lib, lfsUrl, false);
    }
    if NewLookupWithInsecureHttp(lib, lfsUrl, allowInsecureHttp).Success? {
      CredentialUrlIsClean(lib, lfsUrl, allowInsecureHttp);
    }
  }

  // ----- The query -----

  /** `credential_host_field`. */
  function HostField(u: Url): string
    requires u.host.Some?
  {
    Authority(u)
  }

  /** `normalize_credential_path`. */
  function NormalizePath(path: Option<string>): Option<string> {
    match path
    case None => None
    case Some(p) => if TrimStartOf(p, '/') == "" then None else Some(TrimStartOf(p, '/'))
  }

  /** All of the text but the slashes at its start. */
  predicate IsBehindSlashes(path: string, rest: string) {
    |rest| <= |path| && path[|path| - |rest|..] == rest && (rest != "" ==> rest[0] != '/')
    && forall i :: 0 <= i < |path| - |rest| ==> path[i] == '/'
  }

  /** A path is normalised to what is behind its slashes, and to no path if that is nothing. */
  lemma NormalizedPathIs(path: string, rest: string)
    ensures IsBehindSlashes(path, rest) <==> NormalizePath(Some(path)) == if rest == "" then None else Some(rest)
  {
  }

  function ExpectedPath(u: Url): Option<string> { NormalizePath(Some(Path(u))) }

  /** The attributes that both sides know. */
  datatype Key = ProtocolKey | HostKey | PathKey | UsernameKey | PasswordKey

  function KeyText(key: Key): string {
    match key
    case ProtocolKey => "protocol"
    case HostKey => "host"
    case PathKey => "path"
    case UsernameKey => "username"
    case PasswordKey => "password"
  }

  function ReadKey(text: string): (r: Option<Key>)
    ensures r.Some? ==> KeyText(r.value) == text
  {
    if text == "protocol" then Some(ProtocolKey)
    else if text == "host" then Some(HostKey)
    else if text == "path" then Some(PathKey)
    else if text == "username" then Some(UsernameKey)
    else if text == "password" then Some(PasswordKey)
    else None
  }

  lemma KeyReads(key: Key)
    ensures ReadKey(KeyText(key)) == Some(key) && '=' !in KeyText(key) && NoControl(KeyText(key))
  {
  }

  type Attributes = seq<(Key, string)>

  function Line(attribute: (Key, string)): string { KeyText(attribute.0) + ['='] + attribute.1 }

  function AttributeLines(attributes: Attributes): (r: seq<string>)
    ensures |r| == |attributes| && forall i :: 0 <= i < |r| ==> r[i] == Line(attributes[i])
  {
    if attributes == [] then [] else AttributeLines(attributes[..|attributes| - 1]) + [Line(attributes[|attributes| - 1])]
  }

  /** The attributes of a lookup. */
  function Query(l: Lookup): Attributes
    requires l.lfsUrl.host.Some?
  {
    var protocol, host, username := (ProtocolKey, l.lfsUrl.scheme), (HostKey, HostField(l.lfsUrl)), (UsernameKey, l.username);
    match ExpectedPath(l.lfsUrl)
    case None => [protocol, host, username]
    case Some(path) => [protocol, host, (PathKey, path), username]
  }

  /** Attribute lines, in order. */
  function Printed(attributes: Attributes): string { Terminated(AttributeLines(attributes)) }

  function AttributeText(key: Key, value: string): string { KeyText(key) + "=" + value + "\n" }

  lemma PrintedAppend(attributes: Attributes, last: (Key, string))
    ensures Printed(attributes + [last]) == Printed(attributes) + AttributeText(last.0, last.1)
  {
    assert (attributes + [last])[..|attributes|] == attributes;
    TerminatedAppend(AttributeLines(attributes), Line(last));
  }

  lemma PrintedOne(a: (Key, string))
    ensures Printed([a]) == AttributeText(a.0, a.1)
  {
    PrintedAppend([], a);
    assert [] + [a] == [a] && Printed([]) == "";
  }

  lemma PrintedThree(a: (Key, string), b: (Key, string), c: (Key, string))
    ensures Printed([a, b, c]) == AttributeText(a.0, a.1) + AttributeText(b.0, b.1) + AttributeText(c.0, c.1)
  {
    PrintedOne(a);
    assert [a] + [b] == [a, b];
    PrintedAppend([a], b);
    assert [a, b] + [c] == [a, b, c];
    PrintedAppend([a, b], c);
  }

  /** The attribute lines of a lookup, one after the other. */
  function QueryText(l: Lookup): string
    requires l.lfsUrl.host.Some?
  {
    var start := AttributeText(ProtocolKey, l.lfsUrl.scheme) + AttributeText(HostKey, HostField(l.lfsUrl));
    match ExpectedPath(l.lfsUrl)
    case None => start + AttributeText(UsernameKey, l.username)
    case Some(path) => start + AttributeText(PathKey, path) + AttributeText(UsernameKey, l.username)
  }

  lemma PrintedQuery(l: Lookup)
    requires l.lfsUrl.host.Some?
    ensures Printed(Query(l)) == QueryText(l)
  {
    var a, b, c := (ProtocolKey, l.lfsUrl.scheme), (HostKey, HostField(l.lfsUrl)), (UsernameKey, l.username);
    match ExpectedPath(l.lfsUrl) {
      case None => PrintedThree(a, b, c);
      case Some(path) =>
        PrintedThree(a, b, (PathKey, path));
        PrintedAppend([a, b, (PathKey, path)], c);
        assert [a, b, (PathKey, path)] + [c] == Query(l);
    }
  }

  /** The query text, built part by part. */
  method BuildQuery(l: Lookup) returns (input: string)
    requires l.lfsUrl.host.Some?
    ensures input == QueryText(l) + "\n"
  {
    input := AttributeText(ProtocolKey, l.lfsUrl.scheme) + AttributeText(HostKey, HostField(l.lfsUrl));
    var path := ExpectedPath(l.lfsUrl);
    if path.Some? {
      input := input + AttributeText(PathKey, path.value);
    }
    input := input + AttributeText(UsernameKey, l.username);
    input := input + "\n";
  }

  /** `credential_query_input`: the attribute lines and a blank line. */
  method CredentialQueryInput(l: Lookup) returns (input: string)
    requires l.lfsUrl.host.Some?
    ensures input == Printed(Query(l)) + "\n"
  {
    input := BuildQuery(l);
    PrintedQuery(l);
  }

  // ----- The answer -----

  datatype Fields = Fields(
    protocol: Option<string>, host: Option<string>, path: Option<string>, username: Option<string>, password: Option<string>)

  const NO_FIELDS := Fields(None, None, None, None, None)

  function WithField(fields: Fields, key: Option<Key>, value: string): Fields {
    match key
    case Some(ProtocolKey) => fields.(protocol := Some(value))
    case Some(HostKey) => fields.(host := Some(value))
    case Some(PathKey) => fields.(path := Some(value))
    case Some(UsernameKey) => fields.(username := Some(value))
    case Some(PasswordKey) => fields.(password := Some(value))
    case None => fields
  }

  function AcceptLine(fields: Fields, line: string): Result<Fields, CredentialError> {
    match SplitOnce(line, '=')
    case None => Failure(MalformedOutput)
    case Some((key, value)) => Success(WithField(fields, ReadKey(key), value))
  }

  /** The lines before the first empty one. */
  function UntilBlank(lines: seq<string>): (r: seq<string>)
    ensures r <= lines && (forall i :: 0 <= i < |r| ==> r[i] != "") && (|r| < |lines| ==> lines[|r|] == "")
  {
    if lines == [] || lines[0] == "" then [] else [lines[0]] + UntilBlank(lines[1..])
  }

  function ParseFields(output: string): Result<Fields, CredentialError> {
    Fold(AcceptLine, NO_FIELDS, UntilBlank(Lines(output)))
  }

  /** `GitCredentialFields::parse`. */
  method ParseGitCredentialFields(output: string) returns (r: Result<Fields, CredentialError>)
    ensures r == ParseFields(output)
  {
    var lines := Lines(output);
    ghost var used := UntilBlank(lines);
    var fields := NO_FIELDS;
    var i := 0;
    while i < |lines| && lines[i] != ""
      invariant 0 <= i <= |used|
      invariant Fold(AcceptLine, NO_FIELDS, used[..i]) == Success(fields)
      decreases |lines| - i
    {
      FoldNext(AcceptLine, NO_FIELDS, used, i);
      var split := SplitOnce(lines[i], '=');
      if split.None? {
        return Failure(MalformedOutput);
      }
      var (key, value) := split.value;
      match key {
        case "protocol" => fields := fields.(protocol := Some(value));
        case "host" => fields := fields.(host := Some(value));
        case "path" => fields := fields.(path := Some(value));
        case "username" => fields := fields.(username := Some(value));
        case "password" => fields := fields.(password := Some(value));
        case _ =>
      }
      i := i + 1;
    }
    assert used[..i] == used;
    return Success(fields);
  }

  predicate TokenText(token: string) {
    token != "" && ByteLen(token) <= MAX_LFS_SESSION_TOKEN_LEN
    && forall i :: 0 <= i < |token| ==> !IsWhitespace(token[i]) && !IsControl(token[i])
  }

  /** `LfsSessionToken::from_secret`. */
  function TokenError(value: string): (r: Option<CredentialError>)
    ensures r.None? <==> TokenText(value)
  {
    if ByteLen(value) > MAX_LFS_SESSION_TOKEN_LEN then Some(TokenTooLong)
    else if Trim(value) == "" || |Trim(value)| != |value| then Some(TokenBlankOrPadded)
    else if exists i :: 0 <= i < |value| && (IsWhitespace(value[i]) || IsControl(value[i])) then Some(TokenWhitespace)
    else None
  }

  datatype Credential = Credential(lfsUrl: Url, username: string, token: string)

  predicate Matches(l: Lookup, fields: Fields)
    requires l.lfsUrl.host.Some?
  {
    fields.protocol == Some(l.lfsUrl.scheme) && fields.host == Some(HostField(l.lfsUrl))
    && fields.username == Some(l.username) && NormalizePath(fields.path) == ExpectedPath(l.lfsUrl)
  }

  /** The credential that the fields of an answer stand for. */
  function CredentialOf(l: Lookup, fields: Fields): Result<Credential, CredentialError>
    requires l.lfsUrl.host.Some?
  {
    if fields.password.None? then Failure(NoPassword)
    else if !Matches(l, fields) then Failure(DifferentCredential)
    else
      match TokenError(fields.password.value)
      case Some(e) => Failure(e)
      case None => Success(Credential(l.lfsUrl, l.username, fields.password.value))
  }

  /** `parse_git_credential_fill_output`. */
  function ParseFillOutput(l: Lookup, stdout: seq<Byte>): Result<Credential, CredentialError>
    requires l.lfsUrl.host.Some?
  {
    if |stdout| > MAX_CREDENTIAL_OUTPUT_LEN then Failure(TooMuchOutput)
    else
      match Decode(stdout)
      case None => Failure(NotUtf8)
      case Some(output) =>
        match ParseFields(output)
        case Failure(e) => Failure(e)
        case Success(fields) => CredentialOf(l, fields)
  }

  // ----- What an accepted answer says -----

  /** The value of the last line with this key. */
  function LastValue(lines: seq<string>, key: string): Option<string> {
    if lines == [] then None
    else
      match SplitOnce(lines[|lines| - 1], '=')
      case Some((k, value)) => if k == key then Some(value) else LastValue(lines[..|lines| - 1], key)
      case None => LastValue(lines[..|lines| - 1], key)
  }

  predicate AllAttributes(lines: seq<string>) { forall i :: 0 <= i < |lines| ==> '=' in lines[i] }

  function LastFields(lines: seq<string>): Fields {
    Fields(LastValue(lines, "protocol"), LastValue(lines, "host"), LastValue(lines, "path"),
           LastValue(lines, "username"), LastValue(lines, "password"))
  }

  function FieldOf(fields: Fields, key: Key): Option<string> {
    match key
    case ProtocolKey => fields.protocol
    case HostKey => fields.host
    case PathKey => fields.path
    case UsernameKey => fields.username
    case PasswordKey => fields.password
  }

  lemma FieldAfter(fields: Fields, text: string, value: string, key: Key)
    ensures FieldOf(WithField(fields, ReadKey(text), value), key)
            == if text == KeyText(key) then Some(value) else FieldOf(fields, key)
  {
    KeyReads(key);
  }

  /** Parsing succeeds exactly when every line is an attribute, and every field is the last value of its key. */
  lemma {:induction false} FieldsAreLastValues(lines: seq<string>)
    ensures Fold(AcceptLine, NO_FIELDS, lines)
            == if AllAttributes(lines) then Success(LastFields(lines)) else Failure(MalformedOutput)
  {
    if lines != [] {
      var n := |lines| - 1;
      FieldsAreLastValues(lines[..n]);
      AllButLast(lines);
      if AllAttributes(lines) {
        NextFields(lines);
      }
    }
  }

  lemma AllButLast(lines: seq<string>)
    requires lines != []
    ensures AllAttributes(lines) <==> AllAttributes(lines[..|lines| - 1]) && '=' in lines[|lines| - 1]
  {
  }

  lemma NextFields(lines: seq<string>)
    requires lines != [] && '=' in lines[|lines| - 1]
    ensures AcceptLine(LastFields(lines[..|lines| - 1]), lines[|lines| - 1]) == Success(LastFields(lines))
  {
    var (text, value) := SplitOnce(lines[|lines| - 1], '=').value;
    var before := LastFields(lines[..|lines| - 1]);
    FieldAfter(before, text, value, ProtocolKey);
    FieldAfter(before, text, value, HostKey);
    FieldAfter(before, text, value, PathKey);
    FieldAfter(before, text, value, UsernameKey);
    FieldAfter(before, text, value, PasswordKey);
  }

  /** Both paths are the same behind their slashes; an absent one is empty. */
  ghost predicate SamePath(answered: Option<string>, path: string) {
    exists rest ::
      IsBehindSlashes(if answered.Some? then answered.value else "", rest) && IsBehindSlashes(path, rest)
  }

  lemma NormalizedAlike(answered: Option<string>, path: string)
    ensures SamePath(answered, path) <==> NormalizePath(answered) == NormalizePath(Some(path))
  {
    var a := if answered.Some? then answered.value else "";
    assert NormalizePath(answered) == NormalizePath(Some(a));
    NormalizedPathIs(path, TrimStartOf(path, '/'));
    NormalizedPathIs(a, TrimStartOf(path, '/'));
    if rest :| IsBehindSlashes(a, rest) && IsBehindSlashes(path, rest) {
      NormalizedPathIs(a, rest);
      NormalizedPathIs(path, rest);
    }
  }

  lemma MatchesIff(l: Lookup, fields: Fields)
    requires l.lfsUrl.host.Some?
    ensures Matches(l, fields)
        <==> fields.protocol == Some(l.lfsUrl.scheme) && fields.username == Some(l.username)
             && fields.host
                == Some(l.lfsUrl.host.value.text + if l.lfsUrl.port.None? then "" else ":" + Decimal(l.lfsUrl.port.value))
             && SamePath(fields.path, Path(l.lfsUrl))
  {
    NormalizedAlike(fields.path, Path(l.lfsUrl));
  }

  lemma CredentialIff(l: Lookup, fields: Fields, token: string)
    requires l.lfsUrl.host.Some?
    ensures CredentialOf(l, fields) == Success(Credential(l.lfsUrl, l.username, token))
        <==> Matches(l, fields) && fields.password == Some(token) && TokenText(token)
    ensures CredentialOf(l, fields).Success? ==>
              CredentialOf(l, fields).value == Credential(l.lfsUrl, l.username, CredentialOf(l, fields).value.token)
  {
  }

  /** These lines give the values of the lookup and the token. */
  ghost predicate AnswersLookup(l: Lookup, lines: seq<string>, token: string)
    requires l.lfsUrl.host.Some?
  {
    LastValue(lines, "protocol") == Some(l.lfsUrl.scheme)
    && LastValue(lines, "host")
       == Some(l.lfsUrl.host.value.text + if l.lfsUrl.port.None? then "" else ":" + Decimal(l.lfsUrl.port.value))
    && LastValue(lines, "username") == Some(l.username)
    && SamePath(LastValue(lines, "path"), Path(l.lfsUrl))
    && LastValue(lines, "password") == Some(token) && TokenText(token)
  }

  lemma AnswersLookupIff(l: Lookup, lines: seq<string>, token: string)
    requires l.lfsUrl.host.Some?
    ensures AnswersLookup(l, lines, token)
        <==> CredentialOf(l, LastFields(lines)) == Success(Credential(l.lfsUrl, l.username, token))
  {
    MatchesIff(l, LastFields(lines));
    CredentialIff(l, LastFields(lines), token);
  }

  /** The exact condition for an answer to yield a token. */
  ghost predicate Accepts(l: Lookup, stdout: seq<Byte>, token: string)
    requires l.lfsUrl.host.Some?
  {
    |stdout| <= 8192 && Decode(stdout).Some?
    && AllAttributes(UntilBlank(Lines(Decode(stdout).value)))
    && AnswersLookup(l, UntilBlank(Lines(Decode(stdout).value)), token)
  }

  lemma AcceptanceIsExact(l: Lookup, stdout: seq<Byte>, token: string)
    requires l.lfsUrl.host.Some?
    ensures ParseFillOutput(l, stdout) == Success(Credential(l.lfsUrl, l.username, token)) <==> Accepts(l, stdout, token)
    ensures ParseFillOutput(l, stdout).Success? ==>
              ParseFillOutput(l, stdout).value == Credential(l.lfsUrl, l.username, ParseFillOutput(l, stdout).value.token)
  {
    if Decode(stdout).Some? {
      var lines := UntilBlank(Lines(Decode(stdout).value));
      FieldsAreLastValues(lines);
      AnswersLookupIff(l, lines, token);
      CredentialIff(l, LastFields(lines), token);
    }
  }

  /** The error of a refused answer: its size, its encoding, its lines, the password, the values, the token. */
  lemma RefusalsAreExact(l: Lookup, stdout: seq<Byte>)
    requires l.lfsUrl.host.Some? && ParseFillOutput(l, stdout).Failure?
    ensures var error := ParseFillOutput(l, stdout).error;
            if |stdout| > 8192 then error == TooMuchOutput
            else if Decode(stdout).None? then error == NotUtf8
            else
              var lines := UntilBlank(Lines(Decode(stdout).value));
              if !AllAttributes(lines) then error == MalformedOutput
              else
                match LastValue(lines, "password")
                case None => error == NoPassword
                case Some(token) =>
                  if TokenText(token) then error == DifferentCredential
                  else error == DifferentCredential || Some(error) == TokenError(token)
  {
    if Decode(stdout).Some? {
      FieldsAreLastValues(UntilBlank(Lines(Decode(stdout).value)));
    }
  }

  /** A refusal names a rule that the URL breaks. */
  lemma UrlRefusalIsJustified(lib: UrlLibrary, lfsUrl: string, allowInsecureHttp: bool)
    requires ValidateLfsCredentialUrl(lib, lfsUrl, allowInsecureHttp).Failure?
    ensures var error := ValidateLfsCredentialUrl(lib, lfsUrl, allowInsecureHttp).error;
            match lib.parse(lfsUrl)
            case None => error == UrlInvalid
            case Some(u) =>
              match error
              case UrlNotHttp => (u.scheme != "http" && u.scheme != "https") || u.host.None?
              case UrlFragment => u.fragment.Some?
              case UrlCredentials => u.username != "" || u.password.Some?
              case UrlQuery => u.query.Some?
              case UrlInsecure => u.scheme == "http" && u.host.Some? && !u.host.value.loopback && !allowInsecureHttp
              case _ => false
  {
  }

  lemma FieldRefusalIsJustified(value: string)
    requires FieldError(value).Some?
    ensures match FieldError(value).value
            case FieldTooLong => ByteLen(value) > 2048
            case FieldBlankOrPadded => value == "" || IsWhitespace(value[0]) || IsWhitespace(value[|value| - 1])
            case FieldControl => exists i :: 0 <= i < |value| && IsControl(value[i])
            case _ => false
  {
    if value != "" && !IsWhitespace(value[0]) && !IsWhitespace(value[|value| - 1]) { TrimIsIdentity(value); }
  }
}
