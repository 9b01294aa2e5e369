/** The route of a repository below a server base, and the way back from a route to the base. */
module Routes {
  import opened Wrappers
  import opened Text
  import opened Splitting
  import opened Urls
  import opened GitRemotes

  // ----- Editing the path of a URL in place -----

  function WithoutEmptyLast(path: seq<string>): seq<string> {
    if |path| > 1 && path[|path| - 1] == "" then path[..|path| - 1] else path
  }

  function Popped(path: seq<string>): seq<string> {
    if |path| > 1 then path[..|path| - 1] else ROOT
  }

  function PopTimes(path: seq<string>, n: nat): seq<string> {
    if n == 0 then path else Popped(PopTimes(path, n - 1))
  }

  /** Dot segments are skipped; the first segment after the root takes its place. */
  function Push(lib: UrlLibrary, path: seq<string>, segment: string): seq<string> {
    if segment == "." || segment == ".." then path
    else if path == ROOT then [lib.escape(segment)]
    else path + [lib.escape(segment)]
  }

  function PushAll(lib: UrlLibrary, path: seq<string>, segments: seq<string>): seq<string> {
    if segments == [] then path
    else Push(lib, PushAll(lib, path, segments[..|segments| - 1]), segments[|segments| - 1])
  }

  /** A URL whose path can be edited. */
  class MutableUrl {
    var url: Url

    constructor (url: Url)
      ensures this.url == url
    {
      this.url := url;
    }

    method PopIfEmpty()
      modifies this
      ensures url == old(url).(segments := WithoutEmptyLast(old(url).segments))
    {
      if |url.segments| > 1 && url.segments[|url.segments| - 1] == "" {
        url := url.(segments := url.segments[..|url.segments| - 1]);
      }
    }

    method Pop()
      modifies this
      ensures url == old(url).(segments := Popped(old(url).segments))
    {
      url := url.(segments := if |url.segments| > 1 then url.segments[..|url.segments| - 1] else ROOT);
    }

    method Extend(lib: UrlLibrary, segments: seq<string>)
      modifies this
      ensures url == old(url).(segments := PushAll(lib, old(url).segments, segments))
    {
      for i := 0 to |segments|
        invariant url == old(url).(segments := PushAll(lib, old(url).segments, segments[..i]))
      {
        assert segments[..i + 1][..i] == segments[..i];
        if segments[i] != "." && segments[i] != ".." {
          var escaped := lib.escape(segments[i]);
          url := url.(segments := if url.segments == ROOT then [escaped] else url.segments + [escaped]);
        }
      }
      assert segments[..|segments|] == segments;
    }
  }

  // ----- Routes -----

  datatype Route = Route(serverUrl: string, remote: GitRemote, lfsUrl: string)

  datatype RouteError = BadUrl(error: UrlError) | OtherRepository

  function RouteSegments(r: GitRemote): seq<string> { [r.host, r.owner, r.name + ".git", "info", "lfs"] }

  /** `normalized_server_url`. */
  function NormalizedServerUrl(u: Url): string
    requires Plain(u)
  {
    TrimEndOf(ToText(u), '/')
  }

  /** `resolve_with_insecure_http`. */
  function Resolve(lib: UrlLibrary, serverUrl: string, remote: GitRemote, allowInsecureHttp: bool): Result<Route, RouteError> {
    match ValidateHttpUrl(lib, serverUrl, allowInsecureHttp)
    case Failure(e) => Failure(BadUrl(e))
    case Success(u) =>
      Success(Route(NormalizedServerUrl(u), remote,
                    ToText(u.(segments := PushAll(lib, u.segments, RouteSegments(remote))))))
  }

  method ResolveRoute(lib: UrlLibrary, serverUrl: string, remote: GitRemote, allowInsecureHttp: bool)
    returns (r: Result<Route, RouteError>)
    ensures r == Resolve(lib, serverUrl, remote, allowInsecureHttp)
  {
    var validated := ValidateHttpUrl(lib, serverUrl, allowInsecureHttp);
    if validated.Failure? { return Failure(BadUrl(validated.error)); }
    var lfsUrl := new MutableUrl(validated.value);
    var server := NormalizedServerUrl(lfsUrl.url);
    lfsUrl.Extend(lib, RouteSegments(remote));
    return Success(Route(server, remote, ToText(lfsUrl.url)));
  }

  /** The server base of a configured URL: the URL without its last five segments. */
  function ServerBase(u: Url): Url { u.(segments := PopTimes(WithoutEmptyLast(u.segments), 5)) }

  /** `resolve_from_lfs_url_with_insecure_http`. */
  function Recover(lib: UrlLibrary, lfsUrl: string, remote: GitRemote, allowInsecureHttp: bool): Result<Route, RouteError> {
    match ValidateHttpUrl(lib, lfsUrl, allowInsecureHttp)
    case Failure(e) => Failure(BadUrl(e))
    case Success(configured) =>
      match Resolve(lib, NormalizedServerUrl(ServerBase(configured)), remote, allowInsecureHttp)
      case Failure(e) => Failure(e)
      case Success(route) =>
        match ValidateHttpUrl(lib, route.lfsUrl, allowInsecureHttp)
        case Failure(e) => Failure(BadUrl(e))
        case Success(resolved) => if resolved != configured then Failure(OtherRepository) else Success(route)
  }

  method RecoverRoute(lib: UrlLibrary, lfsUrl: string, remote: GitRemote, allowInsecureHttp: bool)
    returns (r: Result<Route, RouteError>)
    ensures r == Recover(lib, lfsUrl, remote, allowInsecureHttp)
  {
    var validated := ValidateHttpUrl(lib, lfsUrl, allowInsecureHttp);
    if validated.Failure? { return Failure(BadUrl(validated.error)); }
    var configured := validated.value;
    var serverBase := new MutableUrl(configured);
    serverBase.PopIfEmpty();
    for i := 0 to 5
      invariant serverBase.url == configured.(segments := PopTimes(WithoutEmptyLast(configured.segments), i))
    {
      serverBase.Pop();
    }
    var route := ResolveRoute(lib, NormalizedServerUrl(serverBase.url), remote, allowInsecureHttp);
    if route.Failure? { return route; }
    var resolved := ValidateHttpUrl(lib, route.value.lfsUrl, allowInsecureHttp);
    if resolved.Failure? { return Failure(BadUrl(resolved.error)); }
    if resolved.value != configured { return Failure(OtherRepository); }
    return route;
  }

  // ----- The segments of a route are literal -----

  lemma EscapesNothing(lib: UrlLibrary, r: GitRemote)
    requires Lawful(lib) && ValidRemote(r)
    ensures forall i :: 0 <= i < 5 ==>
              Literal(RouteSegments(r)[i]) && lib.keeps(RouteSegments(r)[i]) && lib.escape(RouteSegments(r)[i]) == RouteSegments(r)[i]
  {
    RouteIsLiteral(r);
    forall i | 0 <= i < 5
      ensures Literal(RouteSegments(r)[i]) && lib.keeps(RouteSegments(r)[i]) && lib.escape(RouteSegments(r)[i]) == RouteSegments(r)[i]
    {
      assert KeepsOnlySafe(lib, RouteSegments(r)[i]);
    }
  }

  function Below(base: seq<string>, r: GitRemote): seq<string> {
    if base == ROOT then RouteSegments(r) else base + RouteSegments(r)
  }

  lemma {:induction false} PushLiterals(lib: UrlLibrary, path: seq<string>, segments: seq<string>)
    requires forall i :: 0 <= i < |segments| ==> Literal(segments[i]) && lib.escape(segments[i]) == segments[i]
    ensures PushAll(lib, path, segments) == if path == ROOT && segments != [] then segments else path + segments
  {
    if segments != [] {
      var n := |segments| - 1;
      PushLiterals(lib, path, segments[..n]);
      assert segments == segments[..n] + [segments[n]];
      assert Literal(segments[n]);
      if 0 < n {
        assert Literal(segments[0]) && segments[..n][0] == segments[0];
      }
    }
  }

  lemma RoutePath(lib: UrlLibrary, path: seq<string>, r: GitRemote)
    requires Lawful(lib) && ValidRemote(r) && KeptPath(lib, path)
    ensures PushAll(lib, path, RouteSegments(r)) == Below(path, r)
    ensures KeptPath(lib, Below(path, r)) && Below(path, r)[|Below(path, r)| - 1] == "lfs"
  {
    EscapesNothing(lib, r);
    PushLiterals(lib, path, RouteSegments(r));
  }

  /** The URL of a route: below the server, which is its own path or nothing for the root, the host, the owner and the
      repository with `.git`, and then `info/lfs`. */
  lemma RouteUrl(lib: UrlLibrary, serverUrl: string, r: GitRemote, allowInsecureHttp: bool, u: Url)
    requires Lawful(lib) && ValidRemote(r) && ValidateHttpUrl(lib, serverUrl, allowInsecureHttp) == Success(u)
    ensures Resolve(lib, serverUrl, r, allowInsecureHttp).Success?
    ensures var route := Resolve(lib, serverUrl, r, allowInsecureHttp).value;
            var server := if u.segments == [""] then [] else u.segments;
            route.remote == r && route.serverUrl == TrimEndOf(ToText(u), '/')
            && route.lfsUrl == ToText(u.(segments := server + [r.host, r.owner, r.name + ".git", "info", "lfs"]))
  {
    assert YieldsKeptPath(lib, serverUrl);
    RoutePath(lib, u.segments, r);
    var server := if u.segments == ROOT then [] else u.segments;
    assert server + RouteSegments(r) == Below(u.segments, r);
  }

  // ----- Recovery is exact -----

  /** The path ends with the route of the remote, after a base that does not end with an empty segment. */
  predicate IsRoute(path: seq<string>, r: GitRemote) {
    var n := |path| - 5;
    0 <= n && path[n] == r.host && path[n + 1] == r.owner && path[n + 2] == r.name + ".git"
    && path[n + 3] == "info" && path[n + 4] == "lfs" && (n == 0 || path[n - 1] != "")
  }

  lemma IsRouteUnfolds(path: seq<string>, r: GitRemote)
    ensures var n := |path| - 5;
            IsRoute(path, r) <==> 0 <= n && path[n..] == RouteSegments(r) && (n == 0 || path[n - 1] != "")
  {
    if 0 <= |path| - 5 {
      var end := path[|path| - 5..];
      assert end == [end[0], end[1], end[2], end[3], end[4]];
    }
  }

  function RouteBase(path: seq<string>): seq<string>
    requires |path| >= 5
  {
    if |path| == 5 then ROOT else path[..|path| - 5]
  }

  lemma {:induction false} PoppedPath(path: seq<string>, n: nat)
    requires path != []
    ensures PopTimes(path, n) == if n == 0 then path else if n < |path| then path[..|path| - n] else ROOT
  {
    if 0 < n {
      PoppedPath(path, n - 1);
    }
  }

  lemma RouteSplits(path: seq<string>, r: GitRemote)
    requires IsRoute(path, r)
    ensures path == path[..|path| - 5] + RouteSegments(r) && path[|path| - 1] == "lfs"
    ensures Below(RouteBase(path), r) == path && BasePath(RouteBase(path)) == RouteBase(path)
  {
    var n := |path| - 5;
    IsRouteUnfolds(path, r);
    assert path == path[..n] + path[n..];
  }

  lemma BelowEndsWithRoute(base: seq<string>, r: GitRemote)
    requires base == ROOT || (base != [] && base[|base| - 1] != "")
    ensures IsRoute(Below(base, r), r)
  {
    var below := Below(base, r);
    assert below[|below| - 5..] == RouteSegments(r);
    IsRouteUnfolds(below, r);
  }

  lemma PoppedRoute(path: seq<string>, r: GitRemote)
    requires IsRoute(path, r)
    ensures PopTimes(WithoutEmptyLast(path), 5) == RouteBase(path)
  {
    RouteSplits(path, r);
    PoppedPath(path, 5);
  }

  /** Popping and pushing again gives back the path exactly when it is a route. */
  lemma PoppedAndPushed(path: seq<string>, r: GitRemote)
    requires path != []
    ensures var base := BasePath(PopTimes(WithoutEmptyLast(path), 5));
            (Below(base, r) == path <==> IsRoute(path, r)) && (IsRoute(path, r) ==> base == RouteBase(path))
  {
    BelowEndsWithRoute(BasePath(PopTimes(WithoutEmptyLast(path), 5)), r);
    if IsRoute(path, r) {
      RouteSplits(path, r);
      PoppedRoute(path, r);
    }
  }

  lemma PoppedIsKept(lib: UrlLibrary, path: seq<string>)
    requires Lawful(lib) && KeptPath(lib, path) && KeptPath(lib, ROOT)
    ensures KeptPath(lib, PopTimes(WithoutEmptyLast(path), 5))
  {
    PoppedPath(WithoutEmptyLast(path), 5);
  }

  /** What recovery answers for any URL: it succeeds exactly for the routes of this remote, and then the server
      is the URL without the five segments. */
  lemma RecoveryIsExact(lib: UrlLibrary, lfsUrl: string, r: GitRemote, allowInsecureHttp: bool)
    requires Lawful(lib) && ValidRemote(r)
    ensures Recover(lib, lfsUrl, r, allowInsecureHttp)
            == match ValidateHttpUrl(lib, lfsUrl, allowInsecureHttp)
               case Failure(e) => Failure(BadUrl(e))
               case Success(u) =>
                 if IsRoute(u.segments, r)
                 then Success(Route(NormalizedServerUrl(u.(segments := RouteBase(u.segments))), r, ToText(u)))
                 else Failure(OtherRepository)
  {
    var validated := ValidateHttpUrl(lib, lfsUrl, allowInsecureHttp);
    if validated.Success? {
      RecoveryOfValidated(lib, lfsUrl, r, allowInsecureHttp, validated.value);
    }
  }

  /** Resolving below the base of a validated URL. */
  lemma ResolvedBase(lib: UrlLibrary, lfsUrl: string, r: GitRemote, allowInsecureHttp: bool, u: Url)
    requires Lawful(lib) && ValidRemote(r) && ValidateHttpUrl(lib, lfsUrl, allowInsecureHttp) == Success(u)
    ensures var base := u.(segments := BasePath(ServerBase(u).segments));
            var below := u.(segments := Below(base.segments, r));
            Resolve(lib, NormalizedServerUrl(ServerBase(u)), r, allowInsecureHttp)
            == Success(Route(NormalizedServerUrl(base), r, ToText(below)))
            && ValidateHttpUrl(lib, ToText(below), allowInsecureHttp) == Success(below)
  {
    assert YieldsKeptPath(lib, lfsUrl);
    OriginValidates(lib, lfsUrl, allowInsecureHttp);
    PoppedIsKept(lib, u.segments);
    TrimmedUrlValidates(lib, lfsUrl, ServerBase(u).segments, allowInsecureHttp);
    var base := BasePath(ServerBase(u).segments);
    RoutePath(lib, base, r);
    PrintedUrlValidates(lib, lfsUrl, Below(base, r), allowInsecureHttp);
  }

  lemma RecoveryOfValidated(lib: UrlLibrary, lfsUrl: string, r: GitRemote, allowInsecureHttp: bool, u: Url)
    requires Lawful(lib) && ValidRemote(r) && ValidateHttpUrl(lib, lfsUrl, allowInsecureHttp) == Success(u)
    ensures Recover(lib, lfsUrl, r, allowInsecureHttp)
            == if IsRoute(u.segments, r)
               then Success(Route(NormalizedServerUrl(u.(segments := RouteBase(u.segments))), r, ToText(u)))
               else Failure(OtherRepository)
  {
    assert YieldsKeptPath(lib, lfsUrl);
    ResolvedBase(lib, lfsUrl, r, allowInsecureHttp, u);
    PoppedAndPushed(u.segments, r);
  }

  // ----- The inverse -----

  /** Recovering a route from its URL gives back the route, server base included, exactly when the server's path
      is the root or does not end with an empty segment. */
  lemma RouteInverse(lib: UrlLibrary, serverUrl: string, r: GitRemote, allowInsecureHttp: bool)
    requires Lawful(lib) && ValidRemote(r) && ValidateHttpUrl(lib, serverUrl, allowInsecureHttp).Success?
    ensures var path := ValidateHttpUrl(lib, serverUrl, allowInsecureHttp).value.segments;
            var route := Resolve(lib, serverUrl, r, allowInsecureHttp).value;
            path != []
            && Recover(lib, route.lfsUrl, r, allowInsecureHttp)
               == if path == ROOT || path[|path| - 1] != "" then Success(route) else Failure(OtherRepository)
  {
    var u := ValidateHttpUrl(lib, serverUrl, allowInsecureHttp).value;
    var below := u.(segments := Below(u.segments, r));
    assert YieldsKeptPath(lib, serverUrl);
    RoutePath(lib, u.segments, r);
    PrintedUrlValidates(lib, serverUrl, below.segments, allowInsecureHttp);
    RecoveryIsExact(lib, ToText(below), r, allowInsecureHttp);
    BelowIsRoute(u.segments, r);
  }

  lemma BelowIsRoute(path: seq<string>, r: GitRemote)
    requires path != []
    ensures IsRoute(Below(path, r), r) <==> path == ROOT || path[|path| - 1] != ""
    ensures RouteBase(Below(path, r)) == path
  {
    var below := Below(path, r);
    assert below[|below| - 5..] == RouteSegments(r);
    IsRouteUnfolds(below, r);
  }

  /** A recovered route is what resolving its server gives, and its URL is the configured one. */
  lemma RecoveredIsResolved(lib: UrlLibrary, lfsUrl: string, r: GitRemote, allowInsecureHttp: bool)
    requires Lawful(lib) && ValidRemote(r) && Recover(lib, lfsUrl, r, allowInsecureHttp).Success?
    ensures var route := Recover(lib, lfsUrl, r, allowInsecureHttp).value;
            Resolve(lib, route.serverUrl, r, allowInsecureHttp) == Success(route)
            && lib.parse(route.lfsUrl) == lib.parse(lfsUrl)
  {
    var u := ValidateHttpUrl(lib, lfsUrl, allowInsecureHttp).value;
    RecoveryOfValidated(lib, lfsUrl, r, allowInsecureHttp, u);
    RouteOfValidated(lib, lfsUrl, r, allowInsecureHttp, u);
  }

  lemma RouteOfValidated(lib: UrlLibrary, lfsUrl: string, r: GitRemote, allowInsecureHttp: bool, u: Url)
    requires Lawful(lib) && ValidRemote(r) && ValidateHttpUrl(lib, lfsUrl, allowInsecureHttp) == Success(u)
    requires IsRoute(u.segments, r)
    ensures var server := NormalizedServerUrl(u.(segments := RouteBase(u.segments)));
            Resolve(lib, server, r, allowInsecureHttp) == Success(Route(server, r, ToText(u)))
            && lib.parse(ToText(u)) == Some(u)
  {
    ResolvedBase(lib, lfsUrl, r, allowInsecureHttp, u);
    PoppedRoute(u.segments, r);
    RouteSplits(u.segments, r);
  }

  /** One URL is the route of at most one repository. */
  lemma OneRepositoryPerUrl(lib: UrlLibrary, lfsUrl: string, r1: GitRemote, r2: GitRemote, allowInsecureHttp: bool)
    requires Lawful(lib) && ValidRemote(r1) && ValidRemote(r2)
    requires Recover(lib, lfsUrl, r1, allowInsecureHttp).Success? && Recover(lib, lfsUrl, r2, allowInsecureHttp).Success?
    ensures r1.host == r2.host && r1.owner == r2.owner && r1.name == r2.name
  {
    var u := ValidateHttpUrl(lib, lfsUrl, allowInsecureHttp).value;
    RecoveryOfValidated(lib, lfsUrl, r1, allowInsecureHttp, u);
    RecoveryOfValidated(lib, lfsUrl, r2, allowInsecureHttp, u);
    assert RouteSegments(r1)[0] == RouteSegments(r2)[0] && RouteSegments(r1)[1] == RouteSegments(r2)[1];
    var repo1, repo2 := RouteSegments(r1)[2], RouteSegments(r2)[2];
    assert repo1 == repo2;
    assert r1.name == repo1[..|repo1| - 4] && r2.name == repo2[..|repo2| - 4];
  }

  const TRAILING_DOTS := "https:h/a/b/.."

  lemma DotsAreNoRawPath(value: string)
    requires |value| == 14 && value[5] == ':' && value[6] == 'h' && forall i :: 0 <= i < 14 && i != 5 ==> value[i] != ':'
    ensures Find(value, "://").None?
  {
    if Find(value, "://").Some? {
      FoundPart(value, "://");
    }
  }

  lemma DotsPassTheTextChecks(value: string)
    requires value == TRAILING_DOTS
    ensures TextError(value).None?
  {
    assert AllSafe(TRAILING_DOTS);
    DotsAreNoRawPath(value);
  }

  /** The failing case is real: the check for dot segments looks only behind `://`, and the parser accepts a URL
      without the slashes, so a base can end with the empty segment that `..` leaves. */
  lemma DotsBehindNoSlashes(lib: UrlLibrary, u: Url, r: GitRemote)
    requires Lawful(lib) && ValidRemote(r)
    requires lib.parse(TRAILING_DOTS) == Some(u) && Plain(u) && u.scheme == "https" && u.segments == ["a", ""]
    ensures Resolve(lib, TRAILING_DOTS, r, false).Success?
            && Recover(lib, Resolve(lib, TRAILING_DOTS, r, false).value.lfsUrl, r, false) == Failure(OtherRepository)
  {
    DotsPassTheTextChecks(TRAILING_DOTS);
    RouteInverse(lib, TRAILING_DOTS, r, false);
  }
}
