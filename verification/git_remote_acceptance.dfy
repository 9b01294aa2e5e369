/** Exactly which texts are accepted as remotes, and as which repository. */
module GitRemoteAcceptance {
  import opened Wrappers
  import opened Text
  import opened Splitting
  import opened Urls
  import opened GitRemotes

  /** The path is the repository's owner and name with or without the suffix, slashes around it aside. */
  predicate NamesRepository(path: string, r: GitRemote) {
    RepositoryParts(r.owner, r.name)
    && (TrimSlashes(path) == r.owner + ['/'] + (r.name + ".git") || TrimSlashes(path) == r.owner + ['/'] + r.name)
  }

  /** An SSH URL, or an HTTPS URL without a user, without a password, a query and a fragment. */
  predicate IsUrlRemote(u: Url, r: GitRemote) {
    (u.scheme == "ssh" || (u.scheme == "https" && u.username == "")) && u.password.None? && u.query.None? && u.fragment.None?
    && u.host.Some? && r.host == Lowercase(u.host.value.text) && HostLabels(r.host) && NamesRepository(Path(u), r)
  }

  /** `host:path` or `git@host:path`; the host may stand between white space. */
  predicate IsScpRemote(hostPart: string, path: string, host: string, r: GitRemote) {
    (hostPart == host || hostPart == "git" + ['@'] + host) && '@' !in host && '/' !in host && ':' !in host
    && !StartsWith(path, "/") && '?' !in path && '#' !in path
    && r.host == Lowercase(Trim(host)) && HostLabels(r.host) && NamesRepository(path, r)
  }

  ghost predicate IsScpText(url: string, r: GitRemote) {
    exists hostPart, path, host :: url == hostPart + [':'] + path && IsScpRemote(hostPart, path, host, r)
  }

  /** Neither blank nor holding white space or control characters. */
  predicate IsRemoteName(name: string) { name != "" && forall c <- name :: !IsWhitespace(c) && !IsControl(c) }

  predicate NotPadded(url: string) { url != "" && !IsWhitespace(url[0]) && !IsWhitespace(url[|url| - 1]) }

  lemma RemoteNamesAreExact(name: string)
    ensures ComponentError(name).None? <==> IsRemoteName(name)
  {
    if IsRemoteName(name) {
      assert name[0] in name && name[|name| - 1] in name;
      TrimIsIdentity(name);
    }
  }

  lemma PaddingIsExact(url: string)
    ensures (Trim(url) != "" && |Trim(url)| == |url|) <==> NotPadded(url)
  {
    if NotPadded(url) { TrimIsIdentity(url); }
  }

  // ----- Slashes around a path -----

  lemma TrimmedAgain(s: string)
    ensures TrimSlashes(TrimStartOf(s, '/')) == TrimSlashes(s)
  {
  }

  lemma PathNames(path: string, r: GitRemote)
    ensures NamesRepository(path, r) <==> ParseRepositoryPath(path) == Success((r.owner, r.name))
  {
    RepositoryPathsAreExact(path, r.owner, r.name);
  }

  lemma SamePathNames(a: string, b: string, r: GitRemote)
    requires TrimSlashes(a) == TrimSlashes(b)
    ensures NamesRepository(a, r) <==> NamesRepository(b, r)
  {
  }

  // ----- The last step -----

  lemma LastStep(remoteName: string, url: string, host: string, path: string, r: GitRemote)
    ensures FromHostAndPath(remoteName, url, host, path) == Success(r)
        <==> r.remoteName == remoteName && r.url == url && r.host == host && HostLabels(host) && NamesRepository(path, r)
  {
    PathNames(path, r);
    if HostLabels(host) {
      HostCharacters(host);
      HostTextIsClean(host);
    }
  }

  // ----- URLs -----

  predicate IsRemoteUrl(u: Url) {
    (u.scheme == "ssh" || (u.scheme == "https" && u.username == "")) && u.password.None? && u.query.None? && u.fragment.None?
    && u.host.Some? && Trim(u.host.value.text) != ""
  }

  lemma RemoteUrlsAreExact(u: Url)
    ensures RemoteUrlError(u).None? <==> IsRemoteUrl(u)
  {
  }

  lemma LabelsAreNotBlank(host: string)
    requires HostLabels(Lowercase(host))
    ensures Trim(host) != ""
  {
    HostIsClean(host);
    HostTextIsClean(host);
  }

  /** The host and the path that have been read are those of the repository. */
  predicate ReadAs(parts: Result<(string, string), RemoteError>, r: GitRemote) {
    parts.Success? && r.host == parts.value.0 && HostLabels(r.host) && NamesRepository(parts.value.1, r)
  }

  lemma ReadParts(parts: Result<(string, string), RemoteError>, host: string, path: string, r: GitRemote)
    requires parts == Success((host, TrimStartOf(path, '/')))
    ensures ReadAs(parts, r) <==> r.host == host && HostLabels(r.host) && NamesRepository(path, r)
  {
    TrimmedAgain(path);
    SamePathNames(TrimStartOf(path, '/'), path, r);
  }

  lemma UrlParts(lib: UrlLibrary, value: string, u: Url)
    requires lib.parse(value) == Some(u)
    ensures ParseUrlRemote(lib, value).Success? <==> IsRemoteUrl(u)
    ensures ParseUrlRemote(lib, value).Success? ==>
              ParseUrlRemote(lib, value) == Success((Lowercase(u.host.value.text), TrimStartOf(Path(u), '/')))
  {
    RemoteUrlsAreExact(u);
  }

  lemma UrlRemote(lib: UrlLibrary, value: string, u: Url, r: GitRemote)
    requires lib.parse(value) == Some(u)
    ensures ReadAs(ParseUrlRemote(lib, value), r) <==> IsUrlRemote(u, r)
  {
    var parts := ParseUrlRemote(lib, value);
    UrlParts(lib, value, u);
    if parts.Success? {
      ReadParts(parts, Lowercase(u.host.value.text), Path(u), r);
    } else if IsUrlRemote(u, r) {
      LabelsAreNotBlank(u.host.value.text);
    }
  }

  // ----- The scp-like form -----

  /** How the part before the colon is read. */
  lemma HostPartReads(hostPart: string, host: string)
    ensures (match SplitLast(hostPart, '@') case Some((user, h)) => user == "git" && h == host case None => hostPart == host)
        <==> '@' !in host && (hostPart == host || hostPart == "git" + ['@'] + host)
  {
    if '@' !in host {
      SplitLastAt("git", '@', host);
    }
  }

  lemma GitUserIsClean(host: string, c: char)
    requires c == '/' || c == ':'
    ensures c in "git" + ['@'] + host <==> c in host
  {
  }

  /** The host of the part before the colon, if it can be read. */
  function HostOf(hostPart: string): Option<string> {
    match SplitLast(hostPart, '@')
    case Some((user, host)) => if user == "git" then Some(host) else None
    case None => Some(hostPart)
  }

  lemma HostOfIs(hostPart: string, host: string)
    ensures HostOf(hostPart) == Some(host) <==> '@' !in host && (hostPart == host || hostPart == "git" + ['@'] + host)
  {
    HostPartReads(hostPart, host);
  }

  lemma TargetParts(hostPart: string, path: string)
    ensures ScpTarget(hostPart, path).Success? <==> HostOf(hostPart).Some? && Trim(HostOf(hostPart).value) != ""
    ensures ScpTarget(hostPart, path).Success? ==>
              ScpTarget(hostPart, path) == Success((Lowercase(Trim(HostOf(hostPart).value)), path))
  {
  }

  lemma ScpUnfolds(value: string, hostPart: string, path: string)
    requires SplitOnce(value, ':') == Some((hostPart, path))
    ensures if '/' !in hostPart && !StartsWith(path, "/") && '?' !in path && '#' !in path
            then ParseScpLikeRemote(value) == ScpTarget(hostPart, path) else ParseScpLikeRemote(value).Failure?
  {
  }

  lemma ScpParts(value: string, hostPart: string, path: string)
    requires SplitOnce(value, ':') == Some((hostPart, path))
    ensures ParseScpLikeRemote(value).Success?
        <==> '/' !in hostPart && !StartsWith(path, "/") && '?' !in path && '#' !in path
             && HostOf(hostPart).Some? && Trim(HostOf(hostPart).value) != ""
    ensures ParseScpLikeRemote(value).Success? ==>
              ParseScpLikeRemote(value).value == (Lowercase(Trim(HostOf(hostPart).value)), path)
  {
    ScpUnfolds(value, hostPart, path);
    TargetParts(hostPart, path);
  }

  lemma ScpRemote(value: string, r: GitRemote)
    ensures ReadAs(ParseScpLikeRemote(value), r) <==> IsScpText(value, r)
  {
    if SplitOnce(value, ':').Some? {
      var (hostPart, path) := SplitOnce(value, ':').value;
      ScpParts(value, hostPart, path);
      if ReadAs(ParseScpLikeRemote(value), r) {
        ScpIsAccepted(hostPart, path, r);
      }
    }
    if hostPart, path, host :| value == hostPart + [':'] + path && IsScpRemote(hostPart, path, host, r) {
      ScpIsRead(hostPart, path, host, r);
    }
  }

  lemma ScpIsAccepted(hostPart: string, path: string, r: GitRemote)
    requires '/' !in hostPart && ':' !in hostPart && !StartsWith(path, "/") && '?' !in path && '#' !in path
    requires HostOf(hostPart).Some? && r.host == Lowercase(Trim(HostOf(hostPart).value)) && HostLabels(r.host)
    requires NamesRepository(path, r)
    ensures IsScpRemote(hostPart, path, HostOf(hostPart).value, r)
  {
    var host := HostOf(hostPart).value;
    HostOfIs(hostPart, host);
    GitUserIsClean(host, '/');
    GitUserIsClean(host, ':');
  }

  lemma ScpIsRead(hostPart: string, path: string, host: string, r: GitRemote)
    requires IsScpRemote(hostPart, path, host, r)
    ensures ParseScpLikeRemote(hostPart + [':'] + path) == Success((r.host, path))
  {
    HostOfIs(hostPart, host);
    GitUserIsClean(host, '/');
    GitUserIsClean(host, ':');
    SplitOnceAt(hostPart, ':', path);
    ScpParts(hostPart + [':'] + path, hostPart, path);
    HostIsClean(Trim(host));
  }

  // ----- Every remote -----

  /** A remote is accepted, and as this repository, exactly if its name is clean, its text is not padded, and the text
      is a URL of one of the two kinds if it holds `://`, and the scp-like form otherwise. */
  lemma RemotesAreExact(lib: UrlLibrary, remoteName: string, url: string, r: GitRemote)
    ensures ParseRemote(lib, remoteName, url) == Success(r)
        <==> r.remoteName == remoteName && r.url == url && IsRemoteName(remoteName) && NotPadded(url)
             && if Find(url, "://").Some? then lib.parse(url).Some? && IsUrlRemote(lib.parse(url).value, r)
                else IsScpText(url, r)
  {
    RemoteNamesAreExact(remoteName);
    PaddingIsExact(url);
    if lib.parse(url).Some? { UrlRemote(lib, url, lib.parse(url).value, r); }
    ScpRemote(url, r);
    var parsed := if Find(url, "://").Some? then ParseUrlRemote(lib, url) else ParseScpLikeRemote(url);
    if parsed.Success? { LastStep(remoteName, url, parsed.value.0, parsed.value.1, r); }
  }
}
