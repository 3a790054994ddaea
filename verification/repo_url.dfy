/** The repository URL accepted by the command: the anchored pattern
    `^https?://github\.com/(?<author>\w+)/(?<repo>\w+)$`, recognised and split
    character by character. `\w` is the ASCII word class of `java.util.regex`. */
module RepoUrl {
  import opened Wrappers

  /** `\w`: an ASCII letter, an ASCII digit or the underscore. */
  predicate IsWordChar(c: char) {
    'a' <= c <= 'z' || 'A' <= c <= 'Z' || '0' <= c <= '9' || c == '_'
  }

  /** `\w+`: one or more word characters. */
  predicate IsWord(s: string) {
    |s| > 0 && forall i :: 0 <= i < |s| ==> IsWordChar(s[i])
  }

  /** The two named groups of a successful match. */
  datatype RepoRef = RepoRef(author: string, repo: string)

  const HttpScheme: string := "http://"
  const HttpsScheme: string := "https://"
  const Host: string := "github.com/"

  function Scheme(secure: bool): string {
    if secure then HttpsScheme else HttpScheme
  }

  /** The URL naming repository `r`, over https when `secure` holds. */
  function ComposeUrl(secure: bool, r: RepoRef): string {
    Scheme(secure) + Host + r.author + "/" + r.repo
  }

  /** The language of the pattern, stated declaratively: a scheme, the host,
      a word, a slash and a word, and nothing else. */
  ghost predicate MatchesPattern(url: string) {
    exists secure: bool, r: RepoRef :: IsWord(r.author) && IsWord(r.repo) && url == ComposeUrl(secure, r)
  }

  /** Greedy `\w*` at the start of `s`: the length of its longest prefix of word characters. */
  function WordRun(s: string): (n: nat)
    ensures n <= |s|
    ensures forall i :: 0 <= i < n ==> IsWordChar(s[i])
    ensures n < |s| ==> !IsWordChar(s[n])
  {
    if s == [] || !IsWordChar(s[0]) then 0 else 1 + WordRun(s[1..])
  }

  /** Matches a literal prefix and returns what follows it. */
  function StripPrefix(s: string, prefix: string): (rest: Option<string>)
    ensures rest.Some? <==> prefix <= s
    ensures rest.Some? ==> s == prefix + rest.value
  {
    if prefix <= s then Some(s[|prefix|..]) else None
  }

  /** Removing a prefix from a text that starts with it leaves exactly the rest. */
  lemma StripPrefixOfConcat(prefix: string, rest: string)
    ensures StripPrefix(prefix + rest, prefix) == Some(rest)
  {
  }

  /** `https?://`: the optional `s` is tried first, as the greedy `?` does. */
  function StripScheme(url: string): Option<string> {
    var secure := StripPrefix(url, HttpsScheme);
    if secure.Some? then secure else StripPrefix(url, HttpScheme)
  }

  /** `(?<author>\w+)/(?<repo>\w+)$` over what follows the host. */
  function MatchPath(path: string): Option<RepoRef> {
    var n := WordRun(path);
    if 0 < n && n + 1 < |path| && path[n] == '/' && WordRun(path[n + 1..]) == |path| - (n + 1) then
      Some(RepoRef(path[..n], path[n + 1..]))
    else
      None
  }

  /** `Regex.matchEntire`: the whole of `url` must match; the groups are returned. */
  function MatchEntire(url: string): Option<RepoRef> {
    match StripScheme(url)
    case None => None
    case Some(rest) =>
      match StripPrefix(rest, Host)
      case None => None
      case Some(path) => MatchPath(path)
  }

  /** `repoRegex.matches(url)`, the argument check. */
  predicate IsValidRepoUrl(url: string) {
    MatchEntire(url).Some?
  }

  /** A word followed by a non-word character (or by nothing) is exactly what `\w*` consumes. */
  lemma WordRunOfWord(w: string, rest: string)
    requires forall i :: 0 <= i < |w| ==> IsWordChar(w[i])
    requires rest == [] || !IsWordChar(rest[0])
    ensures WordRun(w + rest) == |w|
  {
    assert forall i :: 0 <= i < |w| ==> (w + rest)[i] == w[i];
    if rest != [] {
      assert (w + rest)[|w|] == rest[0];
    }
  }

  lemma MatchPathComplete(author: string, repo: string)
    requires IsWord(author) && IsWord(repo)
    ensures MatchPath(author + "/" + repo) == Some(RepoRef(author, repo))
  {
    var path := author + "/" + repo;
    assert path == author + ("/" + repo);
    WordRunOfWord(author, "/" + repo);
    WordRunOfWord(repo, []);
    assert repo + [] == repo;
    assert path[..|author|] == author;
    assert path[|author| + 1..] == repo;
  }

  lemma StripSchemeComplete(secure: bool, rest: string)
    ensures StripScheme(Scheme(secure) + rest) == Some(rest)
  {
    var url := Scheme(secure) + rest;
    if !secure {
      assert url[4] == ':';
      assert !(HttpsScheme <= url);
    }
  }

  /** Every match has word-only groups and reassembles into the input. */
  lemma MatchEntireSound(url: string)
    requires MatchEntire(url).Some?
    ensures IsWord(MatchEntire(url).value.author) && IsWord(MatchEntire(url).value.repo)
    ensures url == ComposeUrl(true, MatchEntire(url).value) || url == ComposeUrl(false, MatchEntire(url).value)
  {
    var rest := StripScheme(url).value;
    assert url == Scheme(true) + rest || url == Scheme(false) + rest;
    var secure := url == Scheme(true) + rest;
    assert url == Scheme(secure) + rest;
    var path := StripPrefix(rest, Host).value;
    assert rest == Host + path;
    assert MatchEntire(url) == MatchPath(path);
    var r := MatchPath(path).value;
    assert IsWord(r.author) && IsWord(r.repo);
    assert path == r.author + "/" + r.repo;
    Reassemble(url, secure, rest, path, r);
  }

  /** The scheme, host and path the matcher peels off rebuild the URL. */
  lemma Reassemble(url: string, secure: bool, rest: string, path: string, r: RepoRef)
    requires url == Scheme(secure) + rest && rest == Host + path && path == r.author + "/" + r.repo
    ensures url == ComposeUrl(secure, r)
  {
  }

  /** Every URL of the language matches, with exactly its author and repo as groups. */
  lemma MatchEntireComplete(secure: bool, r: RepoRef)
    requires IsWord(r.author) && IsWord(r.repo)
    ensures MatchEntire(ComposeUrl(secure, r)) == Some(r)
  {
    var url := ComposeUrl(secure, r);
    var path := r.author + "/" + r.repo;
    assert url == Scheme(secure) + (Host + path);
    StripSchemeComplete(secure, Host + path);
    assert StripScheme(url) == Some(Host + path);
    assert (Host + path)[|Host|..] == path;
    assert MatchEntire(url) == MatchPath(path);
    MatchPathComplete(r.author, r.repo);
  }

  /** The argument check accepts exactly the language of the pattern. */
  lemma ValidRepoUrlIff(url: string)
    ensures IsValidRepoUrl(url) <==> MatchesPattern(url)
  {
    if IsValidRepoUrl(url) {
      MatchEntireSound(url);
      var r := MatchEntire(url).value;
      if url == ComposeUrl(true, r) {
        assert IsWord(r.author) && IsWord(r.repo) && url == ComposeUrl(true, r);
      } else {
        assert IsWord(r.author) && IsWord(r.repo) && url == ComposeUrl(false, r);
      }
    }
    if MatchesPattern(url) {
      var secure: bool, r: RepoRef :| IsWord(r.author) && IsWord(r.repo) && url == ComposeUrl(secure, r);
      MatchEntireComplete(secure, r);
    }
  }

  /** A URL of the language names one repository only: scheme, author and repo are determined by it. */
  lemma ComposeUrlInjective(s1: bool, r1: RepoRef, s2: bool, r2: RepoRef)
    requires IsWord(r1.author) && IsWord(r1.repo) && IsWord(r2.author) && IsWord(r2.repo)
    requires ComposeUrl(s1, r1) == ComposeUrl(s2, r2)
    ensures s1 == s2 && r1 == r2
  {
    MatchEntireComplete(s1, r1);
    MatchEntireComplete(s2, r2);
    assert ComposeUrl(s1, r1)[4] == (if s1 then 's' else ':');
    assert ComposeUrl(s2, r2)[4] == (if s2 then 's' else ':');
  }

  /** `getRepoInfo`: the author and repo groups of the match; `None` stands for
      the `NullPointerException` its `!!` would raise on a non-matching URL. */
  function GetRepoInfo(url: string): (info: Option<(string, string)>)
    ensures info.Some? <==> IsValidRepoUrl(url)
    ensures info.Some? ==> IsWord(info.value.0) && IsWord(info.value.1)
    ensures info.Some? ==>
              url == ComposeUrl(true, RepoRef(info.value.0, info.value.1))
              || url == ComposeUrl(false, RepoRef(info.value.0, info.value.1))
  {
    match MatchEntire(url)
    case None => None
    case Some(m) =>
      MatchEntireSound(url);
      Some((m.author, m.repo))
  }

  /** Building a URL from an author and a repo and extracting them again gives them back. */
  lemma GetRepoInfoRoundTrip(secure: bool, author: string, repo: string)
    requires IsWord(author) && IsWord(repo)
    ensures GetRepoInfo(ComposeUrl(secure, RepoRef(author, repo))) == Some((author, repo))
  {
    MatchEntireComplete(secure, RepoRef(author, repo));
  }
}
