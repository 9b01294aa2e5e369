/** URLs as the `url` library presents them, and the policy for URLs that are the base of a route. */
module Urls {
  import opened Wrappers
  import opened Text
  import opened Decimals
  import opened Splitting

  /** A host as it is printed, and whether it is a literal loopback address. */
  datatype Host = Host(text: string, loopback: bool)

  datatype Url = Url(
    scheme: string, username: string, password: Option<string>, host: Option<Host>, port: Option<nat>,
    segments: seq<string>, query: Option<string>, fragment: Option<string>)

  // ----- What is assumed of the library -----

  /** `parse`, the escaping of a pushed path segment, and which segments the parser leaves as they are. */
  datatype UrlLibrary = UrlLibrary(parse: string -> Option<Url>, escape: string -> string, keeps: string -> bool)

  predicate IsHttpScheme(scheme: string) { scheme == "http" || scheme == "https" }

  predicate IsHttp(u: Url) { IsHttpScheme(u.scheme) }

  /** A URL that nothing but its scheme, host, port and path identifies. */
  predicate Plain(u: Url) {
    IsHttp(u) && u.host.Some? && u.username == "" && u.password.None? && u.query.None? && u.fragment.None?
  }

  predicate SafeChar(c: char) { !IsWhitespace(c) && !IsControl(c) && c != '\\' }

  predicate AllSafe(s: string) {
    forall i :: 0 <= i < |s| ==> SafeChar(s[i])
  }

  lemma AllSafeConcat(a: string, b: string)
    requires AllSafe(a) && AllSafe(b)
    ensures AllSafe(a + b)
  {
  }

  predicate PathChar(c: char) { SafeChar(c) && c != '/' && c != '?' && c != '#' }

  predicate PathText(s: string) {
    forall i :: 0 <= i < |s| ==> PathChar(s[i])
  }

  predicate HasHost(u: Url) {
    u.host.Some? && u.host.value.text != "" && PathText(u.host.value.text)
  }

  predicate IsDotSegment(segment: string) {
    var s := Lowercase(segment);
    s == "." || s == ".." || s == "%2e" || s == ".%2e" || s == "%2e." || s == "%2e%2e"
  }

  /** A segment that needs no escaping. */
  predicate Literal(s: string) {
    s != "" && s != "." && s != ".."
    && forall i :: 0 <= i < |s| ==> IsAsciiAlphanumeric(s[i]) || s[i] == '-' || s[i] == '_' || s[i] == '.'
  }

  predicate KeptPath(lib: UrlLibrary, segments: seq<string>) {
    segments != [] && forall i :: 0 <= i < |segments| ==> lib.keeps(segments[i])
  }

  /** What parsing yields for an HTTP URL. */
  predicate YieldsKeptPath(lib: UrlLibrary, text: string) {
    match lib.parse(text)
    case None => true
    case Some(u) => IsHttp(u) ==> HasHost(u) && KeptPath(lib, u.segments)
  }

  /** A printed URL is parsed back, with its own path or with any other kept one. */
  predicate ReparsesPath(lib: UrlLibrary, text: string, path: seq<string>) {
    match lib.parse(text)
    case None => true
    case Some(u) =>
      Plain(u) && KeptPath(lib, path) ==> lib.parse(ToText(u.(segments := path))) == Some(u.(segments := path))
  }

  /** Without a path the path is the root. */
  predicate AddsRoot(lib: UrlLibrary, text: string) {
    match lib.parse(text)
    case None => true
    case Some(u) => Plain(u) ==> lib.parse(Origin(u)) == Some(u.(segments := ROOT))
  }

  predicate KeepsOnlySafe(lib: UrlLibrary, s: string) {
    (lib.keeps(s) ==> !IsDotSegment(s) && PathText(s))
    && (Literal(s) ==> lib.keeps(s) && lib.escape(s) == s)
  }

  /** The assumptions about the library. */
  ghost predicate Lawful(lib: UrlLibrary) {
    (forall text :: YieldsKeptPath(lib, text))
    && (forall text, path :: ReparsesPath(lib, text, path))
    && (forall text :: AddsRoot(lib, text))
    && (forall s :: KeepsOnlySafe(lib, s))
  }

  // ----- Printing -----

  const ROOT: seq<string> := [""]

  function PathOf(segments: seq<string>): string {
    if segments == [] then "" else "/" + Join(segments, '/')
  }

  /** `path`. */
  function Path(u: Url): string { PathOf(u.segments) }

  function Authority(u: Url): string
    requires u.host.Some?
  {
    u.host.value.text + match u.port case None => "" case Some(port) => ":" + Decimal(port)
  }

  function Origin(u: Url): string
    requires u.host.Some?
  {
    u.scheme + "://" + Authority(u)
  }

  /** `to_string`, for a URL without credentials, query and fragment. */
  function ToText(u: Url): string
    requires Plain(u)
  {
    Origin(u) + Path(u)
  }

  /** Every segment behind a slash. */
  function SlashText(segments: seq<string>): string {
    if segments == [] then "" else "/" + segments[0] + SlashText(segments[1..])
  }

  lemma {:induction false} PathIsSlashText(segments: seq<string>)
    ensures PathOf(segments) == SlashText(segments)
  {
    if |segments| == 1 {
      assert SlashText(segments[1..]) == "";
    } else if segments != [] {
      PathIsSlashText(segments[1..]);
    }
  }

  /** What is printed: the scheme, the host, the port if there is one, and the segments behind slashes. */
  lemma PrintedUrl(u: Url)
    requires Plain(u)
    ensures ToText(u)
         == u.scheme + "://" + (u.host.value.text + if u.port.None? then "" else ":" + Decimal(u.port.value)) + SlashText(u.segments)
  {
    PathIsSlashText(u.segments);
  }

  // ----- The policy for route bases -----

  datatype UrlError =
    | Blank | UnsafeCharacters | TrailingSlash | DotSegments | Invalid | Credentials | QueryOrFragment | InsecureTransport

  predicate UsesProtectedTransport(u: Url) {
    u.scheme == "https" || (u.scheme == "http" && u.host.Some? && u.host.value.loopback)
  }

  /** The text from the start up to the first character that ends a path. */
  function UpToQuery(s: string): (r: string)
    ensures r <= s && forall i :: 0 <= i < |r| ==> r[i] != '?' && r[i] != '#'
  {
    if s == "" || s[0] == '?' || s[0] == '#' then "" else [s[0]] + UpToQuery(s[1..])
  }

  predicate RawPathHasDotSegments(value: string) {
    match Find(value, "://")
    case None => false
    case Some(i) =>
      var rest := value[i + 3..];
      var slash := FirstIndex(rest, '/');
      slash < |rest| && exists segment :: segment in Split(UpToQuery(rest[slash + 1..]), '/') && IsDotSegment(segment)
  }

  /** The checks that look at the text alone. */
  function TextError(value: string): Option<UrlError> {
    if value == "" then Some(Blank)
    else if !AllSafe(value) then Some(UnsafeCharacters)
    else if value[|value| - 1] == '/' then Some(TrailingSlash)
    else if RawPathHasDotSegments(value) then Some(DotSegments)
    else None
  }

  /** The checks that look at the parsed URL. */
  function UrlErrorOf(u: Url, allowInsecureHttp: bool): (r: Option<UrlError>)
    ensures r.None? ==> Plain(u)
  {
    if !IsHttp(u) || u.host.None? then Some(Invalid)
    else if u.username != "" || u.password.Some? then Some(Credentials)
    else if u.query.Some? || u.fragment.Some? then Some(QueryOrFragment)
    else if !allowInsecureHttp && !UsesProtectedTransport(u) then Some(InsecureTransport)
    else None
  }

  /** `validate_http_url`. */
  function ValidateHttpUrl(lib: UrlLibrary, value: string, allowInsecureHttp: bool): (r: Result<Url, UrlError>)
    ensures r.Success? ==> lib.parse(value) == Some(r.value) && Plain(r.value)
  {
    match TextError(value)
    case Some(e) => Failure(e)
    case None =>
      match lib.parse(value)
      case None => Failure(Invalid)
      case Some(u) =>
        match UrlErrorOf(u, allowInsecureHttp)
        case Some(e) => Failure(e)
        case None => Success(u)
  }

  /** The policy: a text of safe characters without a slash at the end and without dot segments in its raw path, which
      parses to an HTTP URL with a host and without credentials, query and fragment, and HTTPS unless the host is a
      loopback address or plain HTTP is allowed. */
  lemma HttpUrlPolicyIsExact(lib: UrlLibrary, value: string, allowInsecureHttp: bool, u: Url)
    ensures ValidateHttpUrl(lib, value, allowInsecureHttp) == Success(u) <==>
            value != "" && AllSafe(value) && value[|value| - 1] != '/' && !RawPathHasDotSegments(value)
            && lib.parse(value) == Some(u) && (u.scheme == "https" || u.scheme == "http") && u.host.Some?
            && u.username == "" && u.password.None? && u.query.None? && u.fragment.None?
            && (u.scheme == "https" || u.host.value.loopback || allowInsecureHttp)
  {
  }

  /** A refusal names a rule that the text or its URL breaks. */
  lemma RefusalIsJustified(lib: UrlLibrary, value: string, allowInsecureHttp: bool)
    requires ValidateHttpUrl(lib, value, allowInsecureHttp).Failure?
    ensures var parsed := lib.parse(value);
            match ValidateHttpUrl(lib, value, allowInsecureHttp).error
            case Blank => value == ""
            case UnsafeCharacters => exists i :: 0 <= i < |value| && !SafeChar(value[i])
            case TrailingSlash => value != "" && value[|value| - 1] == '/'
            case DotSegments => RawPathHasDotSegments(value)
            case Invalid =>
              parsed.None? || (parsed.value.scheme != "http" && parsed.value.scheme != "https") || parsed.value.host.None?
            case Credentials => parsed.Some? && (parsed.value.username != "" || parsed.value.password.Some?)
            case QueryOrFragment => parsed.Some? && (parsed.value.query.Some? || parsed.value.fragment.Some?)
            case InsecureTransport =>
              parsed.Some? && parsed.value.scheme == "http" && parsed.value.host.Some? && !parsed.value.host.value.loopback
              && !allowInsecureHttp
  {
  }

  // ----- Printed URLs satisfy the policy -----

  lemma PathTextIsSafe(s: string)
    requires PathText(s)
    ensures AllSafe(s) && '/' !in s && '?' !in s && '#' !in s
  {
  }

  lemma AuthorityIsSafe(u: Url)
    requires HasHost(u)
    ensures Authority(u) != "" && PathText(Authority(u))
  {
    if u.port.Some? {
      var digits := Decimal(u.port.value);
      forall i | 0 <= i < |digits| ensures PathChar(digits[i]) {
        assert IsDigit(digits[i]);
      }
    }
  }

  predicate PlainPath(s: string) {
    AllSafe(s) && '?' !in s && '#' !in s
  }

  lemma PlainPathConcat(a: string, b: string)
    requires PlainPath(a) && PlainPath(b)
    ensures PlainPath(a + b)
  {
    AllSafeConcat(a, b);
  }

  lemma {:induction false} JoinIsPlain(pieces: seq<string>)
    requires forall i :: 0 <= i < |pieces| ==> PathText(pieces[i])
    ensures PlainPath(Join(pieces, '/'))
  {
    if pieces != [] {
      PathTextIsSafe(pieces[0]);
    }
    if |pieces| > 1 {
      JoinIsPlain(pieces[1..]);
      PlainPathConcat(pieces[0], "/");
      PlainPathConcat(pieces[0] + "/", Join(pieces[1..], '/'));
    }
  }

  lemma {:induction false} NoQueryToCut(s: string)
    requires '?' !in s && '#' !in s
    ensures UpToQuery(s) == s
  {
    if s != "" { NoQueryToCut(s[1..]); }
  }

  lemma KeptIsSafe(lib: UrlLibrary, path: seq<string>)
    requires Lawful(lib) && KeptPath(lib, path)
    ensures forall i :: 0 <= i < |path| ==> PathText(path[i]) && !IsDotSegment(path[i]) && '/' !in path[i]
  {
    forall i | 0 <= i < |path| ensures PathText(path[i]) && !IsDotSegment(path[i]) && '/' !in path[i] {
      assert KeepsOnlySafe(lib, path[i]);
      PathTextIsSafe(path[i]);
    }
  }

  lemma OriginHasNoPath(scheme: string, authority: string)
    requires IsHttpScheme(scheme) && PathText(authority)
    ensures !RawPathHasDotSegments(scheme + "://" + authority)
  {
    PathTextIsSafe(authority);
    FirstIndexAt(authority, '/', "");
    FindAfter(scheme, "://", authority);
    assert (scheme + "://" + authority)[|scheme| + 3..] == authority;
  }

  lemma RawPathOf(scheme: string, authority: string, path: string)
    requires IsHttpScheme(scheme) && PathText(authority)
    ensures RawPathHasDotSegments(scheme + "://" + (authority + ['/'] + path)) <==>
            exists segment :: segment in Split(UpToQuery(path), '/') && IsDotSegment(segment)
  {
    PathTextIsSafe(authority);
    FirstIndexAt(authority, '/', path);
    var rest := authority + ['/'] + path;
    FindAfter(scheme, "://", rest);
    assert (scheme + "://" + rest)[|scheme| + 3..] == rest;
    assert rest[|authority| + 1..] == path;
  }

  /** A printed URL whose path is kept has no dot segment. */
  lemma PrintedHasNoDotSegment(lib: UrlLibrary, u: Url)
    requires Lawful(lib) && Plain(u) && HasHost(u) && KeptPath(lib, u.segments)
    ensures !RawPathHasDotSegments(ToText(u))
  {
    var path := Join(u.segments, '/');
    AuthorityIsSafe(u);
    RawPathOf(u.scheme, Authority(u), path);
    assert ToText(u) == u.scheme + "://" + (Authority(u) + ['/'] + path);
    KeptIsSafe(lib, u.segments);
    JoinIsPlain(u.segments);
    NoQueryToCut(path);
    SplitOfJoin(u.segments, '/');
  }

  lemma {:induction false} JoinEndsWithLast(pieces: seq<string>)
    requires pieces != [] && pieces[|pieces| - 1] != ""
    ensures var text, last := Join(pieces, '/'), pieces[|pieces| - 1];
            text != "" && text[|text| - 1] == last[|last| - 1]
  {
    if |pieces| > 1 {
      JoinEndsWithLast(pieces[1..]);
    }
  }

  lemma OriginIsSafe(u: Url)
    requires Plain(u) && HasHost(u)
    ensures AllSafe(Origin(u)) && Origin(u)[|Origin(u)| - 1] != '/'
  {
    AuthorityIsSafe(u);
    AllSafeConcat(u.scheme + "://", Authority(u));
  }

  lemma PrintedIsSafe(lib: UrlLibrary, u: Url)
    requires Lawful(lib) && Plain(u) && HasHost(u) && KeptPath(lib, u.segments)
    ensures AllSafe(ToText(u))
  {
    KeptIsSafe(lib, u.segments);
    JoinIsPlain(u.segments);
    AllSafeConcat("/", Join(u.segments, '/'));
    OriginIsSafe(u);
    AllSafeConcat(Origin(u), Path(u));
  }

  lemma PathEndsWithLast(origin: string, path: seq<string>)
    requires path != [] && path[|path| - 1] != "" && forall i :: 0 <= i < |path| ==> '/' !in path[i]
    ensures var text := origin + PathOf(path); text != "" && text[|text| - 1] != '/'
  {
    JoinEndsWithLast(path);
    var last := path[|path| - 1];
    assert last[|last| - 1] in last;
  }

  lemma PrintedPassesTextChecks(lib: UrlLibrary, u: Url)
    requires Lawful(lib) && Plain(u) && HasHost(u) && KeptPath(lib, u.segments) && u.segments[|u.segments| - 1] != ""
    ensures TextError(ToText(u)).None?
  {
    PrintedHasNoDotSegment(lib, u);
    PrintedIsSafe(lib, u);
    KeptIsSafe(lib, u.segments);
    PathEndsWithLast(Origin(u), u.segments);
  }

  lemma OriginPassesTextChecks(u: Url)
    requires Plain(u) && HasHost(u)
    ensures TextError(Origin(u)).None?
  {
    AuthorityIsSafe(u);
    OriginHasNoPath(u.scheme, Authority(u));
    OriginIsSafe(u);
  }

  /** Another kept path that does not end with an empty segment: printing the URL gives a text that passes the
      policy as the same URL. */
  lemma PrintedUrlValidates(lib: UrlLibrary, value: string, path: seq<string>, allowInsecureHttp: bool)
    requires Lawful(lib) && ValidateHttpUrl(lib, value, allowInsecureHttp).Success?
    requires KeptPath(lib, path) && path[|path| - 1] != ""
    ensures var u := ValidateHttpUrl(lib, value, allowInsecureHttp).value.(segments := path);
            ValidateHttpUrl(lib, ToText(u), allowInsecureHttp) == Success(u)
  {
    assert YieldsKeptPath(lib, value) && ReparsesPath(lib, value, path);
    PrintedPassesTextChecks(lib, ValidateHttpUrl(lib, value, allowInsecureHttp).value.(segments := path));
  }

  /** The text without a path passes as the URL with the root path. */
  lemma OriginValidates(lib: UrlLibrary, value: string, allowInsecureHttp: bool)
    requires Lawful(lib) && ValidateHttpUrl(lib, value, allowInsecureHttp).Success?
    ensures var u := ValidateHttpUrl(lib, value, allowInsecureHttp).value;
            ValidateHttpUrl(lib, Origin(u), allowInsecureHttp) == Success(u.(segments := ROOT)) && KeptPath(lib, ROOT)
  {
    var u := ValidateHttpUrl(lib, value, allowInsecureHttp).value;
    assert YieldsKeptPath(lib, value) && AddsRoot(lib, value) && YieldsKeptPath(lib, Origin(u));
    OriginPassesTextChecks(u);
  }

  // ----- Trimming the slashes of a printed URL -----

  function DropEmptyEnd(path: seq<string>): (r: seq<string>)
    ensures r <= path && (r != [] ==> r[|r| - 1] != "")
  {
    if path != [] && path[|path| - 1] == "" then DropEmptyEnd(path[..|path| - 1]) else path
  }

  /** What is left of a path when the slashes at the end of its URL are dropped. */
  function BasePath(path: seq<string>): seq<string> {
    if DropEmptyEnd(path) == [] then ROOT else DropEmptyEnd(path)
  }

  lemma {:induction false} JoinEmptyLast(pieces: seq<string>)
    requires pieces != []
    ensures Join(pieces + [""], '/') == Join(pieces, '/') + "/"
  {
    assert (pieces + [""])[1..] == pieces[1..] + [""];
    if |pieces| > 1 {
      JoinEmptyLast(pieces[1..]);
    } else {
      assert Join(pieces[1..] + [""], '/') == "";
    }
  }

  /** Dropping the slashes after `origin/segments` drops the empty segments at the end. */
  lemma {:induction false} TrimmedPath(origin: string, path: seq<string>)
    requires origin != "" && origin[|origin| - 1] != '/'
    requires path != [] && forall i :: 0 <= i < |path| ==> '/' !in path[i]
    ensures TrimEndOf(origin + PathOf(path), '/') == origin + PathOf(DropEmptyEnd(path))
  {
    var n := |path| - 1;
    if path[n] != "" {
      PathEndsWithLast(origin, path);
      Trimmed(origin + PathOf(path), '/');
    } else if n == 0 {
      assert origin + PathOf(path) == origin + ['/'];
      TrimEndAgain(origin, '/');
      Trimmed(origin, '/');
      assert DropEmptyEnd(path) == [] && origin + "" == origin;
    } else {
      var shorter := path[..n];
      assert path == shorter + [""];
      JoinEmptyLast(shorter);
      var text := origin + PathOf(shorter);
      assert origin + PathOf(path) == text + ['/'];
      TrimEndAgain(text, '/');
      TrimmedPath(origin, shorter);
    }
  }

  /** The text that is left when the last slashes of a printed URL are dropped. */
  function BaseText(u: Url): string
    requires Plain(u)
  {
    if DropEmptyEnd(u.segments) == [] then Origin(u) else ToText(u.(segments := DropEmptyEnd(u.segments)))
  }

  lemma TrimmedText(lib: UrlLibrary, u: Url)
    requires Lawful(lib) && Plain(u) && HasHost(u) && KeptPath(lib, u.segments)
    ensures TrimEndOf(ToText(u), '/') == BaseText(u)
  {
    KeptIsSafe(lib, u.segments);
    OriginIsSafe(u);
    TrimmedPath(Origin(u), u.segments);
    assert Origin(u) + "" == Origin(u);
  }

  /** The printed URL without its last slashes passes the policy, as the URL with the base path. */
  lemma TrimmedUrlValidates(lib: UrlLibrary, value: string, path: seq<string>, allowInsecureHttp: bool)
    requires Lawful(lib) && ValidateHttpUrl(lib, value, allowInsecureHttp).Success? && KeptPath(lib, path)
    ensures var u := ValidateHttpUrl(lib, value, allowInsecureHttp).value.(segments := path);
            ValidateHttpUrl(lib, TrimEndOf(ToText(u), '/'), allowInsecureHttp) == Success(u.(segments := BasePath(path)))
    ensures KeptPath(lib, BasePath(path))
  {
    var u := ValidateHttpUrl(lib, value, allowInsecureHttp).value.(segments := path);
    assert YieldsKeptPath(lib, value);
    TrimmedText(lib, u);
    if DropEmptyEnd(path) == [] {
      OriginValidates(lib, value, allowInsecureHttp);
    } else {
      PrintedUrlValidates(lib, value, DropEmptyEnd(path), allowInsecureHttp);
    }
  }
}
