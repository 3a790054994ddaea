# commit-comments, modelled in Dafny

`commit-comments` is a small Kotlin command-line tool. It takes a GitHub repository URL and an optional `--limit`. It asks the GitHub REST API for the latest commits of that repository and prints their messages under a header line. This project models the decisions the command makes between its I/O calls, all in `CommitCommentsCommand.kt`:

- **`RepoUrl`** (`repo_url.dfy`): the URL pattern `^https?://github\.com/(?<author>\w+)/(?<repo>\w+)$`, modelled as a character-level matcher (`MatchEntire`). `\w+` is a greedy scan (`WordRun`) over the ASCII class `[A-Za-z0-9_]`. The argument check is `IsValidRepoUrl` and the group extraction is `GetRepoInfo`. Both are proved against `MatchesPattern`, a declarative statement of the language: scheme, host, word, slash, word.
- **`Status`** (`status.dfy`): `checkStatusCode`. It returns a `StatusCheck` value where the Kotlin code throws `IllegalArgumentException`. A reader, `CodeOfFailure`, recovers the code from any failure message.
- **`Command`** (`command.dfy`): the `--limit` option (1..50, default 10) and the API endpoint. `ParseEndpoint` inverts the endpoint. `Prepare` covers argument processing and request construction, and `Interpret` covers the status check and what is printed. In `Run`, the network exchange is a parameter `fetch`.
- **`Listing`** (`listing.dfy`): the printed text. It is the header line, then the messages joined by `joinToString("\n")` (a loop in `JoinToString`, with a recursive definition in `Join`). Each `println` adds a line feed. `SplitLines` reads the text back into lines. `IsSingleLine` describes a text without a line feed.
- **`Decimal`** (`decimal.dfy`): how a Kotlin `Int` is written in a string template (`"$code"`, `"$commitsNum"`), plus a reader `ParseInt` that inverts it. The reader accepts only that exact text: no leading zeros and no `-0`.
- **`KotlinInt`** (`kotlin_int.dfy`): the subset type `Int32` for Kotlin `Int`, shared by the status check and the command.
- **`Wrappers`** (`wrappers.dfy`): `Option` and `Result`.

The HTTP status and the limit are Kotlin `Int` values. The program does no arithmetic on them, so there is no wrap-around to model.

Three details of the printed output are easy to miss:
- The messages are printed via `JsonElement.toString()`, not as raw strings. The model therefore treats each message as opaque text that the JSON library produced.
- An empty commit list prints an empty line after the header.
- A commit whose `message` field is missing is not a fatal error: `jsonObject["message"]` yields `null`, and the program prints it as `null`.

The restriction of author and repository names to word characters means names containing `-` or `.` are rejected. That restriction is kept exactly as written.

## Model

| member | source | states |
|---|---|---|
| `RepoUrl.ValidRepoUrlIff` | src/main/kotlin/CommitCommentsCommand.kt:22-24 | The argument check accepts a string exactly when it is `http://` or `https://`, then `github.com/`, then one or more word characters, `/`, and one or more word characters, with nothing before or after. |
| `RepoUrl.IsValidRepoUrl` | src/main/kotlin/CommitCommentsCommand.kt:22 | The argument check `repoRegex.matches(it)`. Its partner is `ValidRepoUrlIff`, which shows it accepts exactly the pattern's language. |
| `RepoUrl.MatchEntire` | src/main/kotlin/CommitCommentsCommand.kt:69 | `matchEntire` against the anchored pattern of line 24. It yields the `author` and `repo` groups or nothing. Its partners are `MatchEntireSound` and `MatchEntireComplete`, which show the groups it returns are exactly the two words the URL is built from. |
| `RepoUrl.MatchEntireSound` | src/main/kotlin/CommitCommentsCommand.kt:24 | Every match has non-empty, word-only `author` and `repo` groups (so neither contains `/`). The scheme, host, author, `/` and repo reassemble into the input. |
| `RepoUrl.MatchEntireComplete` | src/main/kotlin/CommitCommentsCommand.kt:24 | Every URL built from a scheme and two words matches, and its groups are exactly those two words. |
| `RepoUrl.ComposeUrlInjective` | src/main/kotlin/CommitCommentsCommand.kt:24 | An accepted URL determines its scheme, author and repo uniquely. Extraction has no ambiguity. |
| `RepoUrl.WordRun` | src/main/kotlin/CommitCommentsCommand.kt:24 | Greedy `\w*` consumes the longest prefix of word characters. It stops only at the end or at a non-word character. |
| `RepoUrl.StripPrefix` | src/main/kotlin/CommitCommentsCommand.kt:24 | A literal part of the pattern matches exactly when it is a prefix, and the remainder is what follows it. |
| `RepoUrl.GetRepoInfo` | src/main/kotlin/CommitCommentsCommand.kt:68-75 | Extraction succeeds exactly on the URLs the argument check at line 22 accepts, so the `!!` never fails after the check. The pair is non-empty and word-only, and it rebuilds the URL with one of the two schemes. |
| `RepoUrl.GetRepoInfoRoundTrip` | src/main/kotlin/CommitCommentsCommand.kt:68-75 | Extracting from the URL of any two words returns those two words. |
| `Decimal.NatToString` | src/main/kotlin/CommitCommentsCommand.kt:85 | A non-negative `Int` is written as a non-empty string of digits with no leading zero. |
| `Decimal.IntToString` | src/main/kotlin/CommitCommentsCommand.kt:85 | An `Int` is written with a leading `-` exactly when it is negative, followed only by digits, with no leading zero after the sign or at the start of a number longer than one digit. With `IntToStringRoundTrip` and `ParseIntOnlyRenderings` this is exactly the text `Int.toString()` writes. |
| `Decimal.IntToStringRoundTrip` | src/main/kotlin/CommitCommentsCommand.kt:85 | Reading the decimal text of any integer gives that integer back. |
| `Decimal.IntToStringInjective` | src/main/kotlin/CommitCommentsCommand.kt:85 | Distinct integers are written as distinct texts. |
| `Decimal.ParseIntOnlyRenderings` | src/main/kotlin/CommitCommentsCommand.kt:85 | Any text the reader accepts as `n` is exactly the text of `n`. It rejects leading zeros and `-0`, so a contract stated through the reader pins the exact printed digits. |
| `Decimal.NumeralRoundTrip` | src/main/kotlin/CommitCommentsCommand.kt:85 | Every digit string without a superfluous leading zero is the rendering of the number it denotes. |
| `Status.CheckStatusCode` | src/main/kotlin/CommitCommentsCommand.kt:81-86 | Success for every code in 200..299 and failure for every other code. The message is `Repo not found` for 404 and `Internal server error` for 500. Otherwise it is the unknown-error prefix followed by text that `ParseInt` reads as the code. Because `ParseInt` reads only the exact rendering (`ParseIntOnlyRenderings`), that text is exactly `$code`. Every message is non-empty and a single line. |
| `Status.UnknownErrorMessage` | src/main/kotlin/CommitCommentsCommand.kt:85 | The fallback message starts with `Unknown error while retrieving. Http status code ` and is one line. The rest reads back as the code, so by `ParseIntOnlyRenderings` it is exactly the code's decimal text. |
| `Status.FailureMessageNamesCode` | src/main/kotlin/CommitCommentsCommand.kt:83-85 | Every failure message names the status code that produced it. |
| `Status.FailureMessagesDistinct` | src/main/kotlin/CommitCommentsCommand.kt:83-85 | Two failing codes with the same printed message are the same code. |
| `Command.ResolveLimit` | src/main/kotlin/CommitCommentsCommand.kt:31-33 | An absent limit becomes 10. A limit in 1..50 is kept. Any other value is an argument error that names it. |
| `Command.Endpoint` | src/main/kotlin/CommitCommentsCommand.kt:38 | The endpoint template. Its partners are `EndpointRoundTrip` and `ParseEndpointSound`, which read the author, repo and page size back from it exactly, and `EndpointInjective`. |
| `Command.EndpointIsUriText` | src/main/kotlin/CommitCommentsCommand.kt:38-43 | For a word author and repo, every character of the endpoint is an RFC 3986 unreserved character or one of the delimiters `:`, `/`, `?` and `=`. Nothing in it needs percent-encoding. |
| `Command.EndpointRoundTrip` | src/main/kotlin/CommitCommentsCommand.kt:38 | The endpoint `https://api.github.com/repos/<author>/<repo>/commits?per_page=<limit>` reads back as exactly that author, repo and limit. |
| `Command.EndpointInjective` | src/main/kotlin/CommitCommentsCommand.kt:38 | Distinct repositories or page sizes never produce the same endpoint. |
| `Command.ParseEndpointSound` | src/main/kotlin/CommitCommentsCommand.kt:38 | The endpoint reader accepts nothing but endpoints: whatever it reads is word-only and rebuilds, exactly, into the endpoint of that repository and page size. |
| `Command.Prepare` | src/main/kotlin/CommitCommentsCommand.kt:22-38 | A request is produced exactly when the URL is in the pattern's language and the limit is accepted. Otherwise the error names the limit or carries the URL-check message. The limit is 10 by default or the given value. The endpoint is exactly `Endpoint` of the repository the URL names and of that limit. |
| `Command.PrepareValid` | src/main/kotlin/CommitCommentsCommand.kt:31-38 | A URL built from two words, with an accepted limit, yields exactly the request for that repository's endpoint and the effective limit. |
| `Command.Interpret` | src/main/kotlin/CommitCommentsCommand.kt:47-62 | On a non-2xx status, the only line printed is the failure message, and the body is never read. On 2xx with single-line messages, the lines are the header, then the messages in order, then the final line feed. |
| `Command.Run` | src/main/kotlin/CommitCommentsCommand.kt:35-63 | An invocation is rejected before any request exactly when the URL is not in the pattern's language or the limit is out of range. |
| `Command.RejectedWithoutRequest` | src/main/kotlin/CommitCommentsCommand.kt:22-33 | For invalid arguments, the outcome is the same whatever the network would answer: no request is made. |
| `Command.OnlyEndpointRequested` | src/main/kotlin/CommitCommentsCommand.kt:36-45 | For a valid URL, the outcome depends only on the network's answer for the endpoint of that URL's author and repo. |
| `Command.RunPrintsMessagesInOrder` | src/main/kotlin/CommitCommentsCommand.kt:35-62 | End to end, for a valid URL and a 2xx response with single-line messages: the printed lines are `Last <limit> commits:`, then each message once, in the API's order, none dropped or reordered. There is a single empty line when the list is empty. |
| `Command.RunPrintsFailure` | src/main/kotlin/CommitCommentsCommand.kt:47-53 | End to end, for a valid URL and a status outside 200..299: exactly the status check's message is printed, followed by one line feed, and nothing else (`Repo not found` for 404, `Internal server error` for 500). |
| `Listing.JoinToString` | src/main/kotlin/CommitCommentsCommand.kt:62 | The separator-before-every-item-but-the-first loop of `joinToString` computes the recursive join `Join`. |
| `Listing.Join` | src/main/kotlin/CommitCommentsCommand.kt:62 | `joinToString("\n")` as a recursive definition. Its partners are `JoinToString`, which computes it with the library's loop, and `SplitJoin`, which shows the items can be recovered from it. |
| `Listing.JoinSplit` | src/main/kotlin/CommitCommentsCommand.kt:62 | Joining the lines of any text with line feeds gives that text back. So the output contracts stated through the lines fix the exact text printed. |
| `Listing.SplitJoin` | src/main/kotlin/CommitCommentsCommand.kt:62 | For a non-empty list of single-line messages, splitting the joined text at line feeds returns the messages in order. An empty list joins to the empty text, which splits into one empty line. |
| `Listing.SplitAtLineFeed` | src/main/kotlin/CommitCommentsCommand.kt:61-62 | A line feed separates the lines before it from the lines after it. This is what makes the two `println` calls line-structured. |
| `Listing.Header` | src/main/kotlin/CommitCommentsCommand.kt:61 | The text of `println("Last $commitsNum commits:")` is a single line. Its partner is `CommitListingLines`, which places it as the first printed line. |
| `Listing.CommitListing` | src/main/kotlin/CommitCommentsCommand.kt:61-62 | The whole success output: header, line feed, joined messages, line feed. Its partners are `CommitListingLines` and `JoinSplit`, which fix its lines and show those lines determine the text. |
| `Listing.CommitListingLines` | src/main/kotlin/CommitCommentsCommand.kt:61-62 | For single-line messages, the printed text is the header line, then one line per message in order, or one empty line when there are none, then the closing line feed. |

## Left out

- HTTP client construction and the blocking `send` (lines 40-45) are network I/O. The response is the `HttpResponse` value that `fetch` returns, and network failures are not modelled.
- JSON decoding of the body and the `commit`/`message` lookups (lines 56-59) are calls into the serialization library. The decoded messages arrive already rendered as text in `HttpResponse.messages`. Malformed JSON and a missing `commit` field raise exceptions in the source, and those are not modelled.
- Command.Interpret: states the line structure of the success output only for messages without a line feed. The library renders each JSON string quoted, with control characters escaped, so this is expected to hold, but that rendering is not modelled.
- Listing.CommitListingLines: same restriction to messages without a line feed, for the same reason.
- Command.RunPrintsMessagesInOrder: same restriction to messages without a line feed, for the same reason.
- Command.EndpointIsUriText: states which characters the endpoint uses, not that `URI.create` parses it. The URI parser of the Java library is not part of this model.
- Argument parsing by the CLI library is left out: help on empty arguments, conversion of the `--limit` text to an `Int`, the layout of usage-error output, and exit codes (lines 17-33). The limit arrives as an already converted `Option<Int32>`.
- When both the URL and the limit are wrong, the model reports the limit error. The CLI library converts options before it validates arguments, but that library is not part of this model.
- `println` (lines 52, 61-62) writes to standard output. The model produces the text, and it takes the line separator to be a line feed, not the platform's separator.
- Characters are Unicode scalar values rather than UTF-16 units. The URL pattern rejects every non-ASCII character, so URLs are unaffected. Commit messages are opaque text, and the model looks in them only for the line feed, which is the same unit in both encodings. A message holding an unpaired surrogate (which the JSON library decodes from an escape such as `\uD800` and prints unescaped) has no counterpart in the model.
- `build.gradle.kts` is build configuration and has no behaviour.
