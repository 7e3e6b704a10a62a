/**
 One canonical `host/path` for every spelling of a repository
 (src/allowlist/enforcer.rs, `extract_repo_canonical` and
 `normalize_repo_host`). The host of a URL is the authority without userinfo
 and port, as in section 3.2 of RFC 3986.
 */
module RepoCanonical {
  import opened Wrappers
  import opened StringSearch
  import opened Glob

  function StripGit(s: string): string {
    if |s| >= 4 && s[|s| - 4..] == ".git" then s[..|s| - 4] else s
  }

  predicate AllDigits(s: string) {
    forall i :: 0 <= i < |s| ==> '0' <= s[i] <= '9'
  }

  /** What follows the last `@`, or all of it. */
  function AfterUserinfo(s: string): string {
    match FindLast(s, '@')
    case Some(i) => s[i + 1..]
    case None => s
  }

  function BeforeColon(s: string): string {
    match Find(s, ':')
    case Some(i) => s[..i]
    case None => s
  }

  // ---------------------------------------------------------------------
  // The canonicalizer
  // ---------------------------------------------------------------------

  /** What follows the scheme: authority, first slash, path. */
  function FromUrl(after: string): string {
    var slash := Find(after, '/');
    var authority := if slash.Some? then after[..slash.value] else after;
    var path := StripGit(if slash.Some? then after[slash.value + 1..] else "");
    var host := BeforeColon(AfterUserinfo(authority));
    if path == "" then host else host + "/" + path
  }

  /** No scheme: scp-like when the left of the first colon ends in a dotted host, else as written. */
  function FromPlain(s: string): string {
    match Find(s, ':')
    case None => StripGit(s)
    case Some(i) =>
      var host, path := AfterUserinfo(s[..i]), s[i + 1..];
      if '.' in host && !AllDigits(path) then host + "/" + StripGit(path) else StripGit(s)
  }

  function ExtractRepoCanonical(input: string): string {
    var s := Trim(input);
    match FindScheme(s)
    case None => FromPlain(s)
    case Some(i) => FromUrl(s[i + 3..])
  }

  function NormalizeRepoHost(s: string): string {
    match Find(s, '/')
    case Some(i) => if '.' in s[..i] then s else "github.com/" + s
    case None => "github.com/" + s
  }

  // ---------------------------------------------------------------------
  // Spellings
  // ---------------------------------------------------------------------

  datatype Spelling =
    | Url(scheme: string, userinfo: Option<string>, port: Option<string>)
    | Scp(user: Option<string>)
    | Bare

  predicate NoWhitespace(s: string) {
    forall i :: 0 <= i < |s| ==> !IsWhitespace(s[i])
  }

  predicate DottedHost(host: string) {
    '.' in host && '/' !in host && ':' !in host && '@' !in host && NoWhitespace(host)
  }

  /** `owner/name`-like: no port-like number, no colon, no `.git` of its own. */
  predicate RepoPath(path: string) {
    && path != "" && path[0] != '/' && ':' !in path && NoWhitespace(path)
    && !AllDigits(path) && StripGit(path) == path
  }

  /** Userinfo may hold anything but '/', ports anything but '/' and '@'. */
  predicate ValidSpelling(sp: Spelling) {
    match sp
    case Url(scheme, userinfo, port) =>
      && scheme != "" && ':' !in scheme && NoWhitespace(scheme)
      && (userinfo.Some? ==> '/' !in userinfo.value)
      && (port.Some? ==> '/' !in port.value && '@' !in port.value)
    case Scp(user) => user.Some? ==> ':' !in user.value && NoWhitespace(user.value)
    case Bare => true
  }

  function UserPrefix(user: Option<string>): string {
    if user.Some? then user.value + "@" else ""
  }

  function Authority(sp: Spelling, host: string): string
    requires sp.Url?
  {
    UserPrefix(sp.userinfo) + host + if sp.port.Some? then ":" + sp.port.value else ""
  }

  function Render(sp: Spelling, host: string, path: string, dotGit: bool): string {
    var tail := path + if dotGit then ".git" else "";
    match sp
    case Url(scheme, _, _) => scheme + "://" + Authority(sp, host) + "/" + tail
    case Scp(user) => UserPrefix(user) + host + ":" + tail
    case Bare => host + "/" + tail
  }

  lemma StripsOwnSuffix(path: string, dotGit: bool)
    requires StripGit(path) == path
    ensures StripGit(path + if dotGit then ".git" else "") == path
  {
    if dotGit {
      assert (path + ".git")[|path|..] == ".git" && (path + ".git")[..|path|] == path;
    } else {
      assert path + "" == path;
    }
  }

  lemma RenderIsTrimmed(sp: Spelling, host: string, path: string, dotGit: bool)
    requires ValidSpelling(sp) && DottedHost(host) && RepoPath(path)
    ensures Trim(Render(sp, host, path, dotGit)) == Render(sp, host, path, dotGit)
  {
    var s := Render(sp, host, path, dotGit);
    var tail := path + if dotGit then ".git" else "";
    assert s[|s| - 1] == tail[|tail| - 1];
    assert !IsWhitespace(tail[|tail| - 1]);
    match sp {
      case Url(scheme, _, _) => assert s[0] == scheme[0];
      case Scp(user) =>
        if user.Some? && user.value != "" {
          assert s[0] == user.value[0];
        } else {
          assert s[0] == (UserPrefix(user) + host)[0];
        }
      case Bare => assert s[0] == host[0];
    }
    TrimmedAlready(s);
  }

  /** Userinfo ends at the last `@`; what follows has none. */
  lemma UserinfoIsDropped(user: Option<string>, rest: string)
    requires '@' !in rest
    ensures AfterUserinfo(UserPrefix(user) + rest) == rest
  {
    var s := UserPrefix(user) + rest;
    if user.Some? {
      var n := |user.value|;
      assert s[n] == '@' && s[n + 1..] == rest;
      FoundAt(s, '@', n);
    } else {
      assert s == rest;
    }
  }

  /** The host is the authority after the last `@` and before the first colon that follows. */
  lemma AuthorityHost(sp: Spelling, host: string)
    requires sp.Url? && ValidSpelling(sp) && DottedHost(host)
    ensures BeforeColon(AfterUserinfo(Authority(sp, host))) == host
    ensures '/' !in Authority(sp, host)
  {
    hide AfterUserinfo;
    var hostPort := host + if sp.port.Some? then ":" + sp.port.value else "";
    assert '@' !in hostPort && '/' !in hostPort;
    assert Authority(sp, host) == UserPrefix(sp.userinfo) + hostPort;
    UserinfoIsDropped(sp.userinfo, hostPort);
    if sp.port.Some? {
      assert hostPort[|host|] == ':' && hostPort[..|host|] == host;
      FoundAt(hostPort, ':', |host|);
    } else {
      assert hostPort == host;
    }
  }

  lemma FromUrlOf(sp: Spelling, host: string, path: string, tail: string)
    requires sp.Url? && ValidSpelling(sp) && DottedHost(host)
    requires StripGit(tail) == path && path != ""
    ensures FromUrl(Authority(sp, host) + "/" + tail) == host + "/" + path
  {
    var authority := Authority(sp, host);
    var after := authority + "/" + tail;
    AuthorityHost(sp, host);
    assert after[..|authority|] == authority && after[|authority|] == '/' && after[|authority| + 1..] == tail;
    FoundAt(after, '/', |authority|);
  }

  /** What follows the first scheme mark. */
  lemma SchemeFirst(scheme: string, rest: string)
    requires ':' !in scheme
    ensures FindScheme(scheme + "://" + rest) == Some(|scheme|)
    ensures (scheme + "://" + rest)[|scheme| + 3..] == rest
  {
    var s := scheme + "://" + rest;
    assert s[..|scheme|] == scheme && SchemeMark(s, |scheme|);
    SchemeAt(s, |scheme|);
  }

  lemma CanonicalUrl(sp: Spelling, host: string, path: string, dotGit: bool)
    requires sp.Url? && ValidSpelling(sp) && DottedHost(host) && RepoPath(path)
    ensures ExtractRepoCanonical(Render(sp, host, path, dotGit)) == host + "/" + path
  {
    hide FromUrl, Authority, StripGit, Trim, BeforeColon, AfterUserinfo;
    var s := Render(sp, host, path, dotGit);
    var tail := path + if dotGit then ".git" else "";
    RenderIsTrimmed(sp, host, path, dotGit);
    assert s == sp.scheme + "://" + (Authority(sp, host) + "/" + tail);
    SchemeFirst(sp.scheme, Authority(sp, host) + "/" + tail);
    StripsOwnSuffix(path, dotGit);
    FromUrlOf(sp, host, path, tail);
  }

  lemma FromPlainScp(user: Option<string>, host: string, path: string, tail: string)
    requires ValidSpelling(Scp(user)) && DottedHost(host)
    requires StripGit(tail) == path && !AllDigits(tail)
    ensures FromPlain(UserPrefix(user) + host + ":" + tail) == host + "/" + path
    ensures Find(UserPrefix(user) + host + ":" + tail, ':') == Some(|UserPrefix(user) + host|)
  {
    var userHost := UserPrefix(user) + host;
    var s, n := userHost + ":" + tail, |userHost|;
    assert s[..n] == userHost && s[n] == ':' && s[n + 1..] == tail;
    assert ':' !in userHost;
    FoundAt(s, ':', n);
    UserinfoIsDropped(user, host);
  }

  lemma CanonicalScp(user: Option<string>, host: string, path: string, dotGit: bool)
    requires ValidSpelling(Scp(user)) && DottedHost(host) && RepoPath(path)
    ensures ExtractRepoCanonical(Render(Scp(user), host, path, dotGit)) == host + "/" + path
  {
    hide FromPlain, StripGit, Trim;
    var s := Render(Scp(user), host, path, dotGit);
    var tail := path + if dotGit then ".git" else "";
    var n := |UserPrefix(user) + host|;
    RenderIsTrimmed(Scp(user), host, path, dotGit);
    StripsOwnSuffix(path, dotGit);
    var d :| 0 <= d < |path| && !('0' <= path[d] <= '9');
    assert tail[d] == path[d];
    FromPlainScp(user, host, path, tail);
    assert s[n + 1..] == tail && tail[0] == path[0];
    assert ':' !in tail;
    NoScheme(s);
  }

  lemma CanonicalBare(host: string, path: string, dotGit: bool)
    requires DottedHost(host) && RepoPath(path)
    ensures ExtractRepoCanonical(Render(Bare, host, path, dotGit)) == host + "/" + path
  {
    var s := Render(Bare, host, path, dotGit);
    RenderIsTrimmed(Bare, host, path, dotGit);
    assert ':' !in s;
    NoScheme(s);
    if dotGit {
      assert s == (host + "/" + path) + ".git";
      assert s[|s| - 4..] == ".git" && s[..|s| - 4] == host + "/" + path;
    } else {
      assert s == host + "/" + path;
      BareKeepsPath(host, path);
    }
  }

  /** A path that does not end in `.git` keeps not doing so behind a host. */
  lemma BareKeepsPath(host: string, path: string)
    requires RepoPath(path)
    ensures StripGit(host + "/" + path) == host + "/" + path
  {
    var s := host + "/" + path;
    if |path| >= 4 {
      assert s[|s| - 4..] == path[|path| - 4..];
    } else if |s| >= 4 {
      assert s[|s| - 4..][3 - |path|] == '/';
    }
  }

  /** Every spelling of a repository canonicalizes to the same host and path. */
  lemma SpellingsAgree(sp: Spelling, host: string, path: string, dotGit: bool)
    requires ValidSpelling(sp) && DottedHost(host) && RepoPath(path)
    ensures ExtractRepoCanonical(Render(sp, host, path, dotGit)) == host + "/" + path
  {
    match sp {
      case Url(_, _, _) => CanonicalUrl(sp, host, path, dotGit);
      case Scp(user) => CanonicalScp(user, host, path, dotGit);
      case Bare => CanonicalBare(host, path, dotGit);
    }
  }

  // ---------------------------------------------------------------------
  // What is not such a spelling
  // ---------------------------------------------------------------------

  /** Whitespace around the input does not matter. */
  lemma SurroundingsIgnored(s: string, t: string)
    requires Trim(s) == Trim(t)
    ensures ExtractRepoCanonical(s) == ExtractRepoCanonical(t)
  {
    hide Trim, FindScheme, FromPlain, FromUrl;
  }

  lemma FromUrlOfHost(sp: Spelling, host: string, after: string)
    requires sp.Url? && ValidSpelling(sp) && DottedHost(host)
    requires after == Authority(sp, host) || after == Authority(sp, host) + "/"
    ensures FromUrl(after) == host
  {
    hide BeforeColon, AfterUserinfo;
    var authority := Authority(sp, host);
    AuthorityHost(sp, host);
    if after != authority {
      assert after[..|authority|] == authority && after[|authority|] == '/' && after[|authority| + 1..] == "";
      FoundAt(after, '/', |authority|);
    }
  }

  /** A URL that names no path is its host, trailing slash or not. */
  lemma UrlWithoutPath(sp: Spelling, host: string, after: string)
    requires sp.Url? && ValidSpelling(sp) && DottedHost(host)
    requires after == Authority(sp, host) || after == Authority(sp, host) + "/"
    requires Trim(sp.scheme + "://" + after) == sp.scheme + "://" + after
    ensures ExtractRepoCanonical(sp.scheme + "://" + after) == host
  {
    hide Trim, FromUrl, Authority;
    var s, n := sp.scheme + "://" + after, |sp.scheme|;
    FromUrlOfHost(sp, host, after);
    SchemeFirst(sp.scheme, after);
  }

  /** A number after the colon is a port: the text is kept as written. */
  lemma PortIsNotPath(host: string, port: string)
    requires ':' !in host && AllDigits(port) && Trim(host + ":" + port) == host + ":" + port
    ensures ExtractRepoCanonical(host + ":" + port) == host + ":" + port
  {
    hide Trim;
    var s := host + ":" + port;
    ColonAt(host, port);
    DigitsAreNoSuffix(host + ":", port);
    assert port == "" || port[0] != '/';
    assert ':' !in port;
    NoScheme(s);
  }

  /** So is a text whose part before the colon has no dot, its `.git` aside. */
  lemma UndottedIsNotHost(left: string, right: string)
    requires ':' !in left && '.' !in left && ':' !in right && (right == "" || right[0] != '/')
    requires Trim(left + ":" + right) == left + ":" + right
    ensures ExtractRepoCanonical(left + ":" + right) == StripGit(left + ":" + right)
  {
    hide Trim;
    var s := left + ":" + right;
    ColonAt(left, right);
    assert forall c :: c in AfterUserinfo(left) ==> c in left;
    NoScheme(s);
  }

  lemma ColonAt(left: string, right: string)
    requires ':' !in left
    ensures Find(left + ":" + right, ':') == Some(|left|)
    ensures (left + ":" + right)[..|left|] == left && (left + ":" + right)[|left| + 1..] == right
  {
    assert (left + ":" + right)[..|left|] == left;
    FoundAt(left + ":" + right, ':', |left|);
  }

  lemma DigitsAreNoSuffix(head: string, digits: string)
    requires AllDigits(digits) && head != "" && head[|head| - 1] == ':'
    ensures StripGit(head + digits) == head + digits
  {
    var s := head + digits;
    if |s| >= 4 {
      var last := s[|s| - 1];
      assert s[|s| - 4..][3] == last;
      assert digits == "" ==> last == ':';
      assert digits != "" ==> last == digits[|digits| - 1] && '0' <= last <= '9';
    }
  }

  /** Without a colon the text is kept as written, one `.git` aside. */
  lemma ColonlessIsKept(s: string)
    requires ':' !in s && Trim(s) == s
    ensures ExtractRepoCanonical(s) == s || ExtractRepoCanonical(s) + ".git" == s
    ensures (exists t :: t + ".git" == s) ==> ExtractRepoCanonical(s) + ".git" == s
  {
    hide Trim;
    NoScheme(s);
    if |s| >= 4 && s[|s| - 4..] == ".git" {
      assert s[..|s| - 4] + ".git" == s;
    }
    forall t | t + ".git" == s
      ensures |s| >= 4 && s[|s| - 4..] == ".git"
    {
      assert (t + ".git")[|t|..] == ".git";
    }
  }

  // ---------------------------------------------------------------------
  // Host normalization
  // ---------------------------------------------------------------------

  /** A canonical value with a dotted host is left alone. */
  lemma NormalizeFixesCanonical(host: string, path: string)
    requires DottedHost(host)
    ensures NormalizeRepoHost(host + "/" + path) == host + "/" + path
  {
    var s := host + "/" + path;
    assert s[|host|] == '/' && s[..|host|] == host;
    FoundAt(s, '/', |host|);
  }

  lemma NormalizeIsIdempotent(s: string)
    ensures NormalizeRepoHost(NormalizeRepoHost(s)) == NormalizeRepoHost(s)
  {
    GithubIsDotted();
    assert "github.com/" + s == "github.com" + "/" + s;
    NormalizeFixesCanonical("github.com", s);
  }

  /** A value is given the GitHub host exactly when what precedes its first slash has no dot, or it has no slash. */
  lemma NormalizeIsExact(s: string)
    ensures '.' in Segments(s)[0] && |Segments(s)| > 1 ==> NormalizeRepoHost(s) == s
    ensures '.' !in Segments(s)[0] || |Segments(s)| == 1 ==> NormalizeRepoHost(s) == "github.com" + "/" + s
  {
    hide Segments;
    assert "github.com" + "/" + s == "github.com/" + s;
    match Find(s, '/') {
      case None =>
        SlashFreeIsOne(s);
      case Some(i) =>
        assert s == s[..i] + "/" + s[i + 1..];
        SegmentsOfHostPath(s[..i], s[i + 1..]);
    }
  }

  lemma {:induction false} SlashFreeIsOne(s: string)
    requires SlashFree(s)
    ensures Segments(s) == [s]
  {
    if s != "" {
      assert s[0] in s && SlashFree(s[1..]);
      SlashFreeIsOne(s[1..]);
      assert [s[0]] + s[1..] == s;
    }
  }

  lemma GithubIsDotted()
    ensures DottedHost("github.com")
  {
    assert "github.com"[6] == '.';
  }

  lemma {:induction false} SegmentsOfHostPath(host: string, path: string)
    requires '/' !in host
    ensures Segments(host + "/" + path) == [host] + Segments(path)
  {
    var s := host + "/" + path;
    if host == "" {
      assert s[0] == '/' && s[1..] == path;
    } else {
      assert s[1..] == host[1..] + "/" + path;
      SegmentsOfHostPath(host[1..], path);
      assert [host[0]] + host[1..] == host;
    }
  }

  /**
   A pattern with a star-free host matches only repositories on that very host,
   however they are spelled: userinfo, ports and paths cannot stand in for it.
   */
  lemma PatternPinsHost(pattern: string, sp: Spelling, host: string, path: string, dotGit: bool)
    requires ValidSpelling(sp) && DottedHost(host) && RepoPath(path)
    requires '*' !in Segments(pattern)[0]
    requires GlobMatches(pattern, NormalizeRepoHost(ExtractRepoCanonical(Render(sp, host, path, dotGit))))
    ensures host == Segments(pattern)[0]
  {
    hide Render, ExtractRepoCanonical, NormalizeRepoHost;
    SpellingsAgree(sp, host, path, dotGit);
    NormalizeFixesCanonical(host, path);
    MatchIsSegmentwise(pattern, host + "/" + path);
    SegmentsOfHostPath(host, path);
    SegmentwiseCons(Segments(pattern), [host] + Segments(path));
    StarFreeMatchesItself(Segments(pattern)[0], host);
  }

  /** A pattern written without a host matches only repositories on github.com. */
  lemma HostlessPatternMeansGithub(pattern: string, sp: Spelling, host: string, path: string, dotGit: bool)
    requires ValidSpelling(sp) && DottedHost(host) && RepoPath(path)
    requires NormalizeRepoHost(pattern) != pattern
    requires GlobMatches(NormalizeRepoHost(pattern),
            NormalizeRepoHost(ExtractRepoCanonical(Render(sp, host, path, dotGit))))
    ensures host == "github.com"
  {
    hide Render, ExtractRepoCanonical, GlobMatches;
    assert NormalizeRepoHost(pattern) == "github.com" + "/" + pattern;
    SegmentsOfHostPath("github.com", pattern);
    PatternPinsHost(NormalizeRepoHost(pattern), sp, host, path, dotGit);
  }
}
