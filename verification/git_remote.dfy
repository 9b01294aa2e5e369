/** Parsing a Git remote into the repository that it names. */
module GitRemotes {
  import opened Wrappers
  import opened Seqs
  import opened Text
  import opened Splitting
  import opened Urls

  datatype GitRemote = GitRemote(remoteName: string, url: string, host: string, owner: string, name: string)

  datatype RemoteError =
    | BlankOrPadded | WhitespaceOrControl
    | NotAUrl | UnsupportedScheme | EmbeddedCredentials | ExtraParts | NoHost
    | NotARemote | LocalPath | ScpUser
    | NotOwnerAndRepo | UnsafeHost | UnsafeComponent | NestedSuffix

  // ----- Components -----

  /** `validate_remote_component`. */
  function ComponentError(value: string): Option<RemoteError> {
    if Trim(value) == "" || |Trim(value)| != |value| then Some(BlankOrPadded)
    else if exists i :: 0 <= i < |value| && (IsControl(value[i]) || IsWhitespace(value[i])) then Some(WhitespaceOrControl)
    else None
  }

  predicate HostLabel(s: string) {
    s != "" && s[0] != '-' && s[|s| - 1] != '-'
    && forall i :: 0 <= i < |s| ==> IsAsciiAlphanumeric(s[i]) || s[i] == '-'
  }

  predicate HostLabels(host: string) {
    forall i :: 0 <= i < |Split(host, '.')| ==> HostLabel(Split(host, '.')[i])
  }

  /** `validate_remote_host`. */
  function HostError(value: string): Option<RemoteError> {
    if ComponentError(value).Some? then ComponentError(value)
    else if !HostLabels(value) then Some(UnsafeHost)
    else None
  }

  predicate RouteChar(c: char) { IsAsciiAlphanumeric(c) || c == '-' || c == '_' || c == '.' }

  predicate RouteComponent(value: string, allowLeadingDot: bool) {
    value != "" && value != "." && value != ".."
    && (!allowLeadingDot ==> value[0] != '.')
    && value[|value| - 1] != '.'
    && Find(value, "..").None?
    && forall i :: 0 <= i < |value| ==> RouteChar(value[i])
  }

  /** `validate_route_component`. */
  function RouteComponentError(value: string, allowLeadingDot: bool): Option<RemoteError> {
    if ComponentError(value).Some? then ComponentError(value)
    else if !RouteComponent(value, allowLeadingDot) then Some(UnsafeComponent)
    else None
  }

  function StripSuffix(s: string, suffix: string): string {
    if EndsWith(s, suffix) then s[..|s| - |suffix|] else s
  }

  function TrimSlashes(s: string): string { TrimEndOf(TrimStartOf(s, '/'), '/') }

  /** The owner and the name that two components of a path stand for. */
  function OwnerAndName(owner: string, repo: string): Result<(string, string), RemoteError> {
    var name := StripSuffix(repo, ".git");
    match RouteComponentError(owner, false)
    case Some(e) => Failure(e)
    case None =>
      match RouteComponentError(name, true)
      case Some(e) => Failure(e)
      case None => if EndsWith(name, ".git") then Failure(NestedSuffix) else Success((owner, name))
  }

  /** `parse_repository_path`. */
  function ParseRepositoryPath(path: string): Result<(string, string), RemoteError> {
    var components := Split(TrimSlashes(path), '/');
    if |components| != 2 || components[0] == "" || components[1] == "" then Failure(NotOwnerAndRepo)
    else OwnerAndName(components[0], components[1])
  }

  // ----- Remotes -----

  /** Why a URL cannot name a remote. */
  function RemoteUrlError(u: Url): Option<RemoteError> {
    if u.scheme != "https" && u.scheme != "ssh" then Some(UnsupportedScheme)
    else if u.username != "" && u.scheme != "ssh" then Some(EmbeddedCredentials)
    else if u.password.Some? then Some(EmbeddedCredentials)
    else if u.query.Some? || u.fragment.Some? then Some(ExtraParts)
    else if u.host.None? || Trim(u.host.value.text) == "" then Some(NoHost)
    else None
  }

  /** `parse_url_remote`: host and path. */
  function ParseUrlRemote(lib: UrlLibrary, value: string): Result<(string, string), RemoteError> {
    match lib.parse(value)
    case None => Failure(NotAUrl)
    case Some(u) =>
      match RemoteUrlError(u)
      case Some(e) => Failure(e)
      case None => Success((Lowercase(u.host.value.text), TrimStartOf(Path(u), '/')))
  }

  /** `parse_scp_like_remote`: host and path. */
  function ParseScpLikeRemote(value: string): Result<(string, string), RemoteError> {
    match SplitOnce(value, ':')
    case None => Failure(NotARemote)
    case Some((hostPart, path)) =>
      if '/' in hostPart || StartsWith(path, "/") then Failure(LocalPath)
      else if '?' in path || '#' in path then Failure(ExtraParts)
      else ScpTarget(hostPart, path)
  }

  /** The host behind an optional user, and the path. */
  function ScpTarget(hostPart: string, path: string): Result<(string, string), RemoteError> {
    match SplitLast(hostPart, '@')
    case Some((user, host)) => if user != "git" then Failure(ScpUser) else ScpHostAndPath(host, path)
    case None => ScpHostAndPath(hostPart, path)
  }

  function ScpHostAndPath(host: string, path: string): Result<(string, string), RemoteError> {
    if Trim(host) == "" then Failure(NoHost) else Success((Lowercase(Trim(host)), path))
  }

  /** The last step: the host and the path are checked. */
  function FromHostAndPath(remoteName: string, url: string, host: string, path: string): Result<GitRemote, RemoteError> {
    match HostError(host)
    case Some(e) => Failure(e)
    case None =>
      match ParseRepositoryPath(path)
      case Failure(e) => Failure(e)
      case Success((owner, name)) => Success(GitRemote(remoteName, url, host, owner, name))
  }

  /** `GitRemote::parse`. */
  function ParseRemote(lib: UrlLibrary, remoteName: string, url: string): Result<GitRemote, RemoteError> {
    match ComponentError(remoteName)
    case Some(e) => Failure(e)
    case None =>
      if Trim(url) == "" || |Trim(url)| != |url| then Failure(BlankOrPadded)
      else
        match (if Find(url, "://").Some? then ParseUrlRemote(lib, url) else ParseScpLikeRemote(url))
        case Failure(e) => Failure(e)
        case Success((host, path)) => FromHostAndPath(remoteName, url, host, path)
  }

  // ----- Which repositories are accepted -----

  lemma RouteComponentIsClean(value: string, allowLeadingDot: bool)
    requires RouteComponent(value, allowLeadingDot)
    ensures ComponentError(value).None? && RouteComponentError(value, allowLeadingDot).None?
    ensures '/' !in value && ':' !in value && '?' !in value && '#' !in value
  {
    TrimIsIdentity(value);
  }

  predicate RepositoryParts(owner: string, name: string) {
    RouteComponent(owner, false) && RouteComponent(name, true) && !EndsWith(name, ".git")
  }

  lemma OwnerAndNameAreExact(owner: string, repo: string, name: string)
    ensures OwnerAndName(owner, repo) == Success((owner, name)) <==>
            RepositoryParts(owner, name) && (repo == name + ".git" || repo == name)
  {
    if RepositoryParts(owner, name) {
      RouteComponentIsClean(owner, false);
      RouteComponentIsClean(name, true);
      assert (name + ".git")[|name|..] == ".git" && (name + ".git")[..|name|] == name;
    }
    if EndsWith(repo, ".git") {
      assert repo == repo[..|repo| - 4] + ".git";
    }
  }

  function RepositoryPath(owner: string, repo: string): string { owner + ['/'] + repo }

  lemma SlashesAroundPath(owner: string, repo: string)
    requires owner != "" && repo != "" && '/' !in owner && '/' !in repo
    ensures TrimSlashes(RepositoryPath(owner, repo)) == RepositoryPath(owner, repo)
    ensures Split(RepositoryPath(owner, repo), '/') == [owner, repo]
  {
    var path := RepositoryPath(owner, repo);
    assert path[0] == owner[0] && path[|path| - 1] == repo[|repo| - 1];
    assert owner[0] in owner && repo[|repo| - 1] in repo;
    SplitHead(owner, '/', repo);
    SplitHead(repo, '/', "");
  }

  lemma TwoComponents(path: string, owner: string, repo: string)
    requires owner != "" && repo != "" && '/' !in owner && '/' !in repo
    ensures Split(TrimSlashes(path), '/') == [owner, repo] <==> TrimSlashes(path) == RepositoryPath(owner, repo)
  {
    SlashesAroundPath(owner, repo);
    JoinOfSplit(TrimSlashes(path), '/');
    assert [owner, repo][1..] == [repo];
  }

  lemma RepositoryPathReads(path: string, owner: string, name: string, repo: string)
    requires RepositoryParts(owner, name) && (repo == name + ".git" || repo == name)
    requires TrimSlashes(path) == RepositoryPath(owner, repo)
    ensures ParseRepositoryPath(path) == Success((owner, name))
  {
    RouteComponentIsClean(owner, false);
    RouteComponentIsClean(name, true);
    assert '/' !in ".git";
    TwoComponents(path, owner, repo);
    OwnerAndNameAreExact(owner, repo, name);
  }

  /** Exactly the paths `owner/name` and `owner/name.git` of safe parts are accepted, slashes around them aside. */
  lemma RepositoryPathsAreExact(path: string, owner: string, name: string)
    ensures ParseRepositoryPath(path) == Success((owner, name)) <==>
            RepositoryParts(owner, name)
            && (TrimSlashes(path) == RepositoryPath(owner, name + ".git") || TrimSlashes(path) == RepositoryPath(owner, name))
  {
    var components := Split(TrimSlashes(path), '/');
    if |components| == 2 && components[0] != "" && components[1] != "" {
      assert components == [components[0], components[1]];
      TwoComponents(path, components[0], components[1]);
      OwnerAndNameAreExact(components[0], components[1], name);
    }
    if RepositoryParts(owner, name) {
      if TrimSlashes(path) == RepositoryPath(owner, name + ".git") {
        RepositoryPathReads(path, owner, name, name + ".git");
      } else if TrimSlashes(path) == RepositoryPath(owner, name) {
        RepositoryPathReads(path, owner, name, name);
      }
    }
  }

  // ----- What a parsed remote is -----

  /** Every component of the route of such a remote stands for itself. */
  predicate ValidRemote(r: GitRemote) { HostLabels(r.host) && RepositoryParts(r.owner, r.name) }

  lemma LastStepIsValid(remoteName: string, url: string, host: string, path: string)
    requires FromHostAndPath(remoteName, url, host, path).Success?
    ensures var r := FromHostAndPath(remoteName, url, host, path).value;
            ValidRemote(r) && r.remoteName == remoteName && r.url == url
  {
    var (owner, name) := ParseRepositoryPath(path).value;
    RepositoryPathsAreExact(path, owner, name);
  }

  lemma ParsedRemoteIsValid(lib: UrlLibrary, remoteName: string, url: string)
    requires ParseRemote(lib, remoteName, url).Success?
    ensures var r := ParseRemote(lib, remoteName, url).value;
            ValidRemote(r) && r.remoteName == remoteName && r.url == url
  {
    var (host, path) :=
      (if Find(url, "://").Some? then ParseUrlRemote(lib, url) else ParseScpLikeRemote(url)).value;
    LastStepIsValid(remoteName, url, host, path);
  }

  predicate HostText(s: string) {
    s != "" && forall i :: 0 <= i < |s| ==> IsAsciiAlphanumeric(s[i]) || s[i] == '-' || s[i] == '.'
  }

  lemma {:induction false} HostCharacters(host: string)
    requires HostLabels(host)
    ensures HostText(host)
    ensures host[0] != '.' && host[|host| - 1] != '.'
  {
    var labels := Split(host, '.');
    var n := FirstIndex(host, '.');
    if n < |host| {
      assert labels[0] == host[..n];
      var rest := host[n + 1..];
      forall i | 0 <= i < |Split(rest, '.')| ensures HostLabel(Split(rest, '.')[i]) {
        assert labels[i + 1] == Split(rest, '.')[i];
      }
      HostCharacters(rest);
      assert host == labels[0] + ['.'] + rest;
      assert HostLabel(labels[0]);
    } else {
      assert labels[0] == host && HostLabel(labels[0]);
    }
  }

  /** The three components of a route that depend on the remote need no escaping. */
  lemma RouteIsLiteral(r: GitRemote)
    requires ValidRemote(r)
    ensures Literal(r.host) && Literal(r.owner) && Literal(r.name + ".git")
  {
    HostCharacters(r.host);
  }

  // ----- The spellings of one repository -----

  lemma HostTextIsClean(s: string)
    requires HostText(s)
    ensures Trim(s) == s && ComponentError(s).None? && '/' !in s && ':' !in s && '@' !in s
  {
    TrimIsIdentity(s);
  }

  lemma LowercaseHostText(host: string)
    requires HostText(Lowercase(host))
    ensures HostText(host)
  {
    LowercaseAt(host);
    forall i | 0 <= i < |host| ensures IsAsciiAlphanumeric(host[i]) || host[i] == '-' || host[i] == '.' {
      assert Lowercase(host)[i] == ToLower(host[i]);
    }
  }

  lemma HostIsClean(host: string)
    requires HostLabels(Lowercase(host))
    ensures HostError(Lowercase(host)).None? && HostText(host)
  {
    HostCharacters(Lowercase(host));
    HostTextIsClean(Lowercase(host));
    LowercaseHostText(host);
  }

  /** The last step accepts the path of a repository, with or without the suffix. */
  lemma PathOfRepository(remoteName: string, url: string, host: string, owner: string, name: string, repo: string)
    requires HostError(host).None? && RepositoryParts(owner, name) && (repo == name + ".git" || repo == name)
    ensures FromHostAndPath(remoteName, url, host, RepositoryPath(owner, repo))
            == Success(GitRemote(remoteName, url, host, owner, name))
  {
    RouteComponentIsClean(owner, false);
    RouteComponentIsClean(name, true);
    SlashesAroundPath(owner, repo);
    RepositoryPathReads(RepositoryPath(owner, repo), owner, name, repo);
  }

  /** `host:path`, where only the separator is a colon, is no URL. */
  lemma ScpTextIsNoUrl(hostPart: string, path: string)
    requires ':' !in hostPart && ':' !in path && path != "" && path[0] != '/'
    ensures Find(hostPart + [':'] + path, "://").None?
  {
    var s := hostPart + [':'] + path;
    if Find(s, "://").Some? {
      FoundPart(s, "://");
    }
  }

  function ScpHostPart(asGit: bool, host: string): string { if asGit then "git" + ['@'] + host else host }

  lemma ScpHostSplits(asGit: bool, host: string)
    requires '/' !in host && ':' !in host && '@' !in host
    ensures SplitLast(ScpHostPart(asGit, host), '@') == if asGit then Some(("git", host)) else None
    ensures '/' !in ScpHostPart(asGit, host) && ':' !in ScpHostPart(asGit, host)
  {
    if asGit {
      SplitLastAt("git", '@', host);
      NotInConcat("git" + ['@'], host, '/');
      NotInConcat("git" + ['@'], host, ':');
    }
  }

  lemma ScpPartsRead(value: string, hostPart: string, path: string, host: string)
    requires SplitOnce(value, ':') == Some((hostPart, path)) && '/' !in hostPart && !StartsWith(path, "/")
    requires '?' !in path && '#' !in path && host != "" && Trim(host) == host
    requires SplitLast(hostPart, '@') == Some(("git", host)) || (SplitLast(hostPart, '@') == None && hostPart == host)
    ensures ParseScpLikeRemote(value) == Success((Lowercase(host), path))
  {
  }

  lemma ScpTextSplits(asGit: bool, host: string, path: string)
    requires HostText(host)
    requires path != "" && path[0] != '/' && ':' !in path && '?' !in path && '#' !in path
    ensures var text := ScpHostPart(asGit, host) + [':'] + path;
            Find(text, "://").None? && ParseScpLikeRemote(text) == Success((Lowercase(host), path))
  {
    var hostPart := ScpHostPart(asGit, host);
    HostTextIsClean(host);
    ScpHostSplits(asGit, host);
    ScpTextIsNoUrl(hostPart, path);
    SplitOnceAt(hostPart, ':', path);
    ScpPartsRead(hostPart + [':'] + path, hostPart, path, host);
  }

  lemma PathIsClean(owner: string, name: string, repo: string)
    requires RepositoryParts(owner, name) && (repo == name + ".git" || repo == name)
    ensures var path := RepositoryPath(owner, repo);
            path != "" && path[0] != '/' && ':' !in path && '?' !in path && '#' !in path && !IsWhitespace(path[|path| - 1])
  {
    RouteComponentIsClean(owner, false);
    RouteComponentIsClean(name, true);
    var path := RepositoryPath(owner, repo);
    assert path[0] == owner[0] && owner[0] in owner;
    assert path[|path| - 1] == repo[|repo| - 1] && name[|name| - 1] in name;
  }

  lemma ScpTextIsTrimmed(asGit: bool, host: string, path: string)
    requires HostText(host) && path != "" && !IsWhitespace(path[|path| - 1])
    ensures var text := ScpHostPart(asGit, host) + [':'] + path; text != "" && Trim(text) == text
  {
    var text := ScpHostPart(asGit, host) + [':'] + path;
    assert text[0] == if asGit then 'g' else host[0];
    TrimIsIdentity(text);
  }

  /** `git@host:owner/name.git` names the repository `owner/name` of the host; the user and the suffix may be left out. */
  lemma ScpSpelling(
    lib: UrlLibrary, remoteName: string, asGit: bool, host: string, owner: string, name: string, repo: string)
    requires ComponentError(remoteName).None? && HostLabels(Lowercase(host))
    requires RepositoryParts(owner, name) && (repo == name + ".git" || repo == name)
    ensures var text := ScpHostPart(asGit, host) + [':'] + RepositoryPath(owner, repo);
            ParseRemote(lib, remoteName, text) == Success(GitRemote(remoteName, text, Lowercase(host), owner, name))
  {
    var path := RepositoryPath(owner, repo);
    HostIsClean(host);
    PathIsClean(owner, name, repo);
    ScpTextSplits(asGit, host, path);
    ScpTextIsTrimmed(asGit, host, path);
    PathOfRepository(remoteName, ScpHostPart(asGit, host) + [':'] + path, Lowercase(host), owner, name, repo);
  }

  lemma JoinTwo(owner: string, repo: string)
    ensures PathOf([owner, repo]) == ['/'] + RepositoryPath(owner, repo)
  {
    assert [owner, repo][1..] == [repo];
    assert Join([owner, repo], '/') == owner + ['/'] + Join([repo], '/');
  }

  lemma UrlPathReads(owner: string, name: string, repo: string)
    requires RepositoryParts(owner, name) && (repo == name + ".git" || repo == name)
    ensures TrimStartOf(PathOf([owner, repo]), '/') == RepositoryPath(owner, repo)
  {
    PathIsClean(owner, name, repo);
    JoinTwo(owner, repo);
    assert (['/'] + RepositoryPath(owner, repo))[1..] == RepositoryPath(owner, repo);
  }

  lemma NamesARemote(u: Url)
    requires u.scheme == "ssh" || (u.scheme == "https" && u.username == "")
    requires u.password.None? && u.query.None? && u.fragment.None?
    requires u.host.Some? && Trim(u.host.value.text) != ""
    ensures RemoteUrlError(u).None?
  {
  }

  /** An HTTPS or SSH URL whose path is `/owner/name` or `/owner/name.git` names the same repository. */
  lemma UrlSpelling(lib: UrlLibrary, remoteName: string, text: string, u: Url, owner: string, name: string, repo: string)
    requires ComponentError(remoteName).None? && text != "" && Trim(text) == text && Find(text, "://").Some?
    requires lib.parse(text) == Some(u) && (u.scheme == "ssh" || (u.scheme == "https" && u.username == ""))
    requires u.password.None? && u.query.None? && u.fragment.None?
    requires u.host.Some? && HostLabels(Lowercase(u.host.value.text))
    requires RepositoryParts(owner, name) && (repo == name + ".git" || repo == name) && u.segments == [owner, repo]
    ensures ParseRemote(lib, remoteName, text)
            == Success(GitRemote(remoteName, text, Lowercase(u.host.value.text), owner, name))
  {
    var host := u.host.value.text;
    HostIsClean(host);
    HostTextIsClean(host);
    UrlPathReads(owner, name, repo);
    NamesARemote(u);
    PathOfRepository(remoteName, text, Lowercase(host), owner, name, repo);
  }
}
