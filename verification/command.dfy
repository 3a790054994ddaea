/** `CommitCommentsCommand.run` with its I/O cut out: the limit option, the
    request endpoint, the interpretation of the response and the printed text.
    The HTTP exchange is a parameter `fetch` from endpoint to response. */
module Command {
  import opened Wrappers
  import opened Decimal
  import opened KotlinInt
  import opened RepoUrl
  import opened Status
  import opened Listing

  // ---------------------------------------------------------------- limit

  const MinLimit: int := 1
  const MaxLimit: int := 50
  const DefaultLimit: int := 10

  /** A number of commits the `--limit` option lets through. */
  type Limit = n: int | MinLimit <= n <= MaxLimit witness DefaultLimit

  const InvalidRepoUrlMessage: string := "Value must be valid github repository URL"

  /** Argument errors, reported before any request is made. */
  datatype ArgError = InvalidRepoUrl(message: string) | LimitOutOfRange(value: Int32)

  /** `-l/--limit`: an `Int`, restricted to 1..50, 10 when absent. */
  function ResolveLimit(given: Option<Int32>): (r: Result<Limit, ArgError>)
    ensures given.None? ==> r == Ok(DefaultLimit)
    ensures given.Some? && MinLimit <= given.value <= MaxLimit ==> r == Ok(given.value as int)
    ensures given.Some? && !(MinLimit <= given.value <= MaxLimit) ==> r == Err(LimitOutOfRange(given.value))
  {
    match given
    case None => Ok(DefaultLimit)
    case Some(n) => if MinLimit <= n <= MaxLimit then Ok(n as int) else Err(LimitOutOfRange(n))
  }

  // ------------------------------------------------------------- endpoint

  const ApiReposBase: string := "https://api.github.com/repos/"
  const CommitsQuery: string := "/commits?per_page="

  /** An unreserved character of section 2.3 of RFC 3986, or one of the
      delimiters `:`, `/`, `?` and `=` that the endpoint uses. */
  predicate IsUriChar(c: char) {
    IsWordChar(c) || c in "-.~" || c in ":/?="
  }

  predicate IsUriText(s: string) {
    forall i :: 0 <= i < |s| ==> IsUriChar(s[i])
  }

  /** The GitHub REST endpoint listing the commits of a repository, one page of `limit`. */
  function Endpoint(info: RepoRef, limit: int): string {
    ApiReposBase + info.author + "/" + info.repo + CommitsQuery + IntToString(limit)
  }

  lemma LiteralsAreUriText()
    ensures IsUriText(ApiReposBase) && IsUriText(CommitsQuery) && IsUriText("/")
  {
  }

  lemma UriTextConcat(a: string, b: string)
    requires IsUriText(a) && IsUriText(b)
    ensures IsUriText(a + b)
  {
  }

  /** For a word author and repo, every character of the endpoint is an
      unreserved character or one of `:`, `/`, `?` and `=`: nothing in it
      needs percent-encoding. */
  lemma EndpointIsUriText(info: RepoRef, limit: int)
    requires IsWord(info.author) && IsWord(info.repo)
    ensures IsUriText(Endpoint(info, limit))
  {
    var digits := IntToString(limit);
    LiteralsAreUriText();
    assert IsUriText(digits);
    assert IsUriText(info.author) && IsUriText(info.repo);
    UriTextConcat(ApiReposBase, info.author);
    UriTextConcat(ApiReposBase + info.author, "/");
    UriTextConcat(ApiReposBase + info.author + "/", info.repo);
    UriTextConcat(ApiReposBase + info.author + "/" + info.repo, CommitsQuery);
    UriTextConcat(ApiReposBase + info.author + "/" + info.repo + CommitsQuery, digits);
  }

  /** Reads an endpoint back into the repository and page size it requests. */
  function ParseEndpoint(e: string): Option<(RepoRef, int)> {
    match StripPrefix(e, ApiReposBase)
    case None => None
    case Some(path) => ParseRepoPath(path)
  }

  /** Reads `<author>/` and hands the rest to `ParsePage`. */
  function ParseRepoPath(path: string): Option<(RepoRef, int)> {
    var a := WordRun(path);
    if 0 < a < |path| && path[a] == '/' then ParsePage(path[..a], path[a + 1..]) else None
  }

  /** Reads `<repo>/commits?per_page=<n>` once the author has been read. */
  function ParsePage(author: string, rest: string): Option<(RepoRef, int)> {
    var b := WordRun(rest);
    if 0 < b then
      match StripPrefix(rest[b..], CommitsQuery)
      case None => None
      case Some(digits) =>
        match ParseInt(digits)
        case None => None
        case Some(n) => Some((RepoRef(author, rest[..b]), n))
    else None
  }

  lemma ParsePageRoundTrip(author: string, repo: string, limit: int)
    requires IsWord(repo)
    ensures ParsePage(author, repo + (CommitsQuery + IntToString(limit))) == Some((RepoRef(author, repo), limit))
  {
    var digits := IntToString(limit);
    var tail := CommitsQuery + digits;
    var rest := repo + tail;
    WordRunOfWord(repo, tail);
    assert rest[..|repo|] == repo;
    assert rest[|repo|..] == tail;
    assert StripPrefix(tail, CommitsQuery) == Some(digits);
    IntToStringRoundTrip(limit);
  }

  /** The endpoint names exactly the repository and page size it was built from. */
  lemma EndpointRoundTrip(info: RepoRef, limit: int)
    requires IsWord(info.author) && IsWord(info.repo)
    ensures ParseEndpoint(Endpoint(info, limit)) == Some((info, limit))
  {
    var rest := info.repo + (CommitsQuery + IntToString(limit));
    EndpointShape(info, limit);
    StripPrefixOfConcat(ApiReposBase, info.author + ("/" + rest));
    ParseRepoPathRoundTrip(info.author, rest);
    ParsePageRoundTrip(info.author, info.repo, limit);
  }

  lemma ParseRepoPathRoundTrip(author: string, rest: string)
    requires IsWord(author)
    ensures ParseRepoPath(author + ("/" + rest)) == ParsePage(author, rest)
  {
    var path := author + ("/" + rest);
    WordRunOfWord(author, "/" + rest);
    assert path[..|author|] == author;
    assert path[|author| + 1..] == rest;
  }

  lemma ParsePageSound(author: string, rest: string)
    requires ParsePage(author, rest).Some?
    ensures ParsePage(author, rest).value.0.author == author
    ensures IsWord(ParsePage(author, rest).value.0.repo)
    ensures rest == ParsePage(author, rest).value.0.repo
                    + (CommitsQuery + IntToString(ParsePage(author, rest).value.1))
  {
    var b := WordRun(rest);
    var digits := StripPrefix(rest[b..], CommitsQuery).value;
    ParseIntOnlyRenderings(digits, ParseInt(digits).value);
    assert rest == rest[..b] + rest[b..];
  }

  lemma ParseRepoPathSound(path: string)
    requires ParseRepoPath(path).Some?
    ensures IsWord(ParseRepoPath(path).value.0.author) && IsWord(ParseRepoPath(path).value.0.repo)
    ensures ApiReposBase + path == Endpoint(ParseRepoPath(path).value.0, ParseRepoPath(path).value.1)
  {
    var a := WordRun(path);
    var author := path[..a];
    var rest := path[a + 1..];
    SplitAtSlash(path, a);
    assert ParseRepoPath(path) == ParsePage(author, rest);
    ParsePageSound(author, rest);
    var info := ParsePage(author, rest).value.0;
    var n := ParsePage(author, rest).value.1;
    EndpointFromParts(info, n, path, rest);
  }

  /** The `/` the reader stops at separates the author from the rest of the path. */
  lemma SplitAtSlash(path: string, a: nat)
    requires a < |path| && path[a] == '/'
    ensures path == path[..a] + ("/" + path[a + 1..])
  {
    assert path == path[..a] + [path[a]] + path[a + 1..];
  }

  /** The endpoint, read as the base followed by the path the reader splits. */
  lemma EndpointFromParts(info: RepoRef, n: int, path: string, rest: string)
    requires path == info.author + ("/" + rest)
    requires rest == info.repo + (CommitsQuery + IntToString(n))
    ensures ApiReposBase + path == Endpoint(info, n)
  {
  }

  /** The reader accepts nothing but endpoints: whatever it reads as a
      repository and page size is exactly the endpoint built from them. */
  lemma ParseEndpointSound(e: string)
    requires ParseEndpoint(e).Some?
    ensures IsWord(ParseEndpoint(e).value.0.author) && IsWord(ParseEndpoint(e).value.0.repo)
    ensures e == Endpoint(ParseEndpoint(e).value.0, ParseEndpoint(e).value.1)
  {
    ParseRepoPathSound(StripPrefix(e, ApiReposBase).value);
  }

  /** The endpoint with its concatenations grouped from the right, as the reader takes it apart. */
  lemma EndpointShape(info: RepoRef, limit: int)
    ensures Endpoint(info, limit) == ApiReposBase + (info.author + ("/" + (info.repo + (CommitsQuery + IntToString(limit)))))
  {
  }

  /** Distinct repositories or page sizes never share an endpoint. */
  lemma EndpointInjective(i1: RepoRef, l1: int, i2: RepoRef, l2: int)
    requires IsWord(i1.author) && IsWord(i1.repo) && IsWord(i2.author) && IsWord(i2.repo)
    requires Endpoint(i1, l1) == Endpoint(i2, l2)
    ensures i1 == i2 && l1 == l2
  {
    EndpointRoundTrip(i1, l1);
    EndpointRoundTrip(i2, l2);
  }

  // ------------------------------------------------------------- pipeline

  /** What `client.send` yields: the status code and the body, the body already
      decoded and each commit's `commit.message` element rendered as text. */
  datatype HttpResponse = HttpResponse(status: Int32, messages: seq<string>)

  /** The request `run` makes: its endpoint, and the limit the header repeats. */
  datatype Request = Request(endpoint: string, limit: Limit)

  /** What one invocation ends in: an argument error before any request, or the printed text. */
  datatype Outcome = Rejected(error: ArgError) | Printed(text: string)

  /** The limit option passes `restrictTo(1, 50)`. */
  predicate LimitAccepted(given: Option<Int32>) {
    ResolveLimit(given).Ok?
  }

  /** Option and argument processing, then `getRepoInfo` and the endpoint. The
      limit option is converted before the URL argument is validated, so an
      out-of-range limit is the error reported when both are wrong. */
  function Prepare(url: string, limitArg: Option<Int32>): (r: Result<Request, ArgError>)
    ensures r.Ok? <==> MatchesPattern(url) && LimitAccepted(limitArg)
    ensures !LimitAccepted(limitArg) ==> r == Err(LimitOutOfRange(limitArg.value))
    ensures LimitAccepted(limitArg) && !MatchesPattern(url) ==> r == Err(InvalidRepoUrl(InvalidRepoUrlMessage))
    ensures r.Ok? && limitArg.None? ==> r.value.limit == DefaultLimit
    ensures r.Ok? && limitArg.Some? ==> r.value.limit == limitArg.value as int
    ensures r.Ok? ==>
              && ParseEndpoint(r.value.endpoint).Some?
              && ParseEndpoint(r.value.endpoint).value.1 == r.value.limit
              && (|| url == ComposeUrl(true, ParseEndpoint(r.value.endpoint).value.0)
                  || url == ComposeUrl(false, ParseEndpoint(r.value.endpoint).value.0))
    ensures r.Ok? ==> r.value.endpoint == Endpoint(ParseEndpoint(r.value.endpoint).value.0, r.value.limit)
  {
    ValidRepoUrlIff(url);
    match ResolveLimit(limitArg)
    case Err(e) => Err(e)
    case Ok(limit) =>
      match GetRepoInfo(url)
      case None => Err(InvalidRepoUrl(InvalidRepoUrlMessage))
      case Some((author, repo)) =>
        EndpointRoundTrip(RepoRef(author, repo), limit);
        Ok(Request(Endpoint(RepoRef(author, repo), limit), limit))
  }

  /** The limit a run uses once the option has been accepted. */
  function EffectiveLimit(limitArg: Option<Int32>): Limit
    requires LimitAccepted(limitArg)
  {
    ResolveLimit(limitArg).value
  }

  /** A valid URL and limit yield the request for that URL's repository. */
  lemma PrepareValid(secure: bool, info: RepoRef, limitArg: Option<Int32>)
    requires IsWord(info.author) && IsWord(info.repo) && LimitAccepted(limitArg)
    ensures Prepare(ComposeUrl(secure, info), limitArg)
            == Ok(Request(Endpoint(info, EffectiveLimit(limitArg)), EffectiveLimit(limitArg)))
  {
    GetRepoInfoRoundTrip(secure, info.author, info.repo);
    assert ResolveLimit(limitArg) == Ok(EffectiveLimit(limitArg));
  }

  /** `checkStatusCode` and what `run` prints after it. */
  function Interpret(limit: int, response: HttpResponse): (out: string)
    ensures 200 <= response.status <= 299 && AllSingleLine(response.messages) ==>
              SplitLines(out) == [Header(limit)] + (if response.messages == [] then [""] else response.messages) + [""]
    ensures !(200 <= response.status <= 299) ==>
              SplitLines(out) == [CheckStatusCode(response.status).message, ""]
  {
    match CheckStatusCode(response.status)
    case Failed(message) =>
      SplitAtLineFeed(message, "");
      SplitSingleLine(message);
      assert message + "\n" + "" == message + "\n";
      message + "\n"
    case Successful =>
      CommitListingLines(limit, response.messages);
      CommitListing(limit, response.messages)
  }

  /** One invocation of the command; `fetch` stands for the HTTP exchange. */
  function Run(url: string, limitArg: Option<Int32>, fetch: string -> HttpResponse): (o: Outcome)
    ensures o.Rejected? <==> !MatchesPattern(url) || !LimitAccepted(limitArg)
  {
    match Prepare(url, limitArg)
    case Err(e) => Rejected(e)
    case Ok(request) => Printed(Interpret(request.limit, fetch(request.endpoint)))
  }

  /** Invalid arguments are reported without any request: the outcome does not
      depend on what the network would answer. */
  lemma RejectedWithoutRequest(url: string, limitArg: Option<Int32>, f: string -> HttpResponse, g: string -> HttpResponse)
    requires !MatchesPattern(url) || !LimitAccepted(limitArg)
    ensures Run(url, limitArg, f).Rejected?
    ensures Run(url, limitArg, f) == Run(url, limitArg, g)
  {
  }

  /** The only request made is the one for the repository the URL names. */
  lemma OnlyEndpointRequested(secure: bool, info: RepoRef, limitArg: Option<Int32>,
                              f: string -> HttpResponse, g: string -> HttpResponse)
    requires IsWord(info.author) && IsWord(info.repo) && LimitAccepted(limitArg)
    requires f(Endpoint(info, EffectiveLimit(limitArg))) == g(Endpoint(info, EffectiveLimit(limitArg)))
    ensures Run(ComposeUrl(secure, info), limitArg, f) == Run(ComposeUrl(secure, info), limitArg, g)
  {
    PrepareValid(secure, info, limitArg);
  }

  /** End to end: for a valid URL and a successful response, the printed lines
      are the header and then the commit messages exactly as the API ordered them
      (a single empty line when there are none). */
  lemma RunPrintsMessagesInOrder(secure: bool, info: RepoRef, limitArg: Option<Int32>,
                                 fetch: string -> HttpResponse)
    requires IsWord(info.author) && IsWord(info.repo) && LimitAccepted(limitArg)
    requires 200 <= fetch(Endpoint(info, EffectiveLimit(limitArg))).status <= 299
    requires AllSingleLine(fetch(Endpoint(info, EffectiveLimit(limitArg))).messages)
    ensures var limit := EffectiveLimit(limitArg);
            var messages := fetch(Endpoint(info, limit)).messages;
            var o := Run(ComposeUrl(secure, info), limitArg, fetch);
            && o.Printed?
            && SplitLines(o.text) == [Header(limit)] + (if messages == [] then [""] else messages) + [""]
  {
    var limit := EffectiveLimit(limitArg);
    PrepareValid(secure, info, limitArg);
    var response := fetch(Endpoint(info, limit));
    assert Run(ComposeUrl(secure, info), limitArg, fetch) == Printed(Interpret(limit, response));
  }

  /** End to end: for a valid URL and a failing status, the only thing printed
      is the status check's message on a line of its own. */
  lemma RunPrintsFailure(secure: bool, info: RepoRef, limitArg: Option<Int32>,
                         fetch: string -> HttpResponse)
    requires IsWord(info.author) && IsWord(info.repo) && LimitAccepted(limitArg)
    requires !(200 <= fetch(Endpoint(info, EffectiveLimit(limitArg))).status <= 299)
    ensures var status := fetch(Endpoint(info, EffectiveLimit(limitArg))).status;
            Run(ComposeUrl(secure, info), limitArg, fetch) == Printed(CheckStatusCode(status).message + "\n")
  {
    var limit := EffectiveLimit(limitArg);
    PrepareValid(secure, info, limitArg);
    var response := fetch(Endpoint(info, limit));
    assert Run(ComposeUrl(secure, info), limitArg, fetch) == Printed(Interpret(limit, response));
  }
}
