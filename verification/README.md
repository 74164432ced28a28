# file-to-web: a Dafny model of the authenticated file server's core

file-to-web is a small Go HTTP server. It shares one directory behind HTTP
Basic authentication and logs every authentication outcome and every file
access. This project models in Dafny how it builds its account store at
start-up and how it handles each request, and proves what that logic
promises. The model has five modules:

- `Wrappers` holds `Option` and `Result`. Each `log.Fatalf`/`log.Fatal` of
  `parseUsers` becomes a `Failure` carrying a `ConfigError`.
- `Text` models the Go string functions the parser uses, together with
  `Join`, the inverse of `Split` against which splitting is checked:
  - `strings.TrimSpace`, with the Unicode White_Space set, which is what
    `unicode.IsSpace` accepts;
  - `strings.Split`;
  - `strings.SplitN(s, ":", 2)`.
- `Users` models `parseUsers`. It builds the username → password store from
  the `-users` string `user1:pass1,user2:pass2`. The loop is split in two:
  `ParseSegment` classifies each comma-separated segment, and `AddSegments`
  folds the classified segments into the map. The fold stops at the first
  bad segment. Classifying every segment first gives the same result,
  because classification is pure.
- `HostPort` models `getClientIP` (`ClientIP`) together with the
  standard-library `net.SplitHostPort` and `net.JoinHostPort` it relies on.
- `Handlers` models `basicAuth`, `loggingFileHandler` and the handler
  registered for `/`, which is `basicAuth(loggingFileHandler(root))`. A
  handler maps a request to an `Outcome`: the response, plus the sequence of
  log events and file-server calls the request caused. The events are:
  - `MissingCredentials`
  - `RejectedCredentials`
  - `Authenticated`
  - `FileAccess`
  - `Served`, which marks the call into the file server

The request is the remote address, the URL path, and the result of
`r.BasicAuth()` as an `Option<Credentials>`. The file server is a parameter
`fs: Request -> Response`.

An empty store after parsing is reachable from non-empty input: a
non-empty string made only of commas and whitespace, such as `" , ,"`,
configures nobody and reaches `log.Fatal` at main.go:86.
`Users.ParseUsersNoValidUsers` proves that these are exactly the inputs that
fail with `NoValidUsers`.

## Model

| member | source | states |
|---|---|---|
| `Text.TrimRight` | main.go:68 | the right half of `strings.TrimSpace`: the result is a prefix of the input, what it drops is whitespace only, and it does not end in whitespace |
| `Text.TrimSpace` | main.go:68 | `strings.TrimSpace`, applied to each segment and to each half of it (main.go:77-78): the result has no whitespace at either end, and it is empty iff the input is whitespace only |
| `Text.TrimSpaceUnique` | main.go:68 | the trimmed segment is the one string without whitespace at either end that the segment surrounds with whitespace only |
| `Text.TrimSpaceKeeps` | main.go:68 | trimming removes no character other than whitespace, so a colon is in the trimmed segment iff it is in the raw one |
| `Text.Split` | main.go:66 | `strings.Split` on ',': at least one piece, no piece holds a comma, and joining the pieces with commas gives back the input |
| `Text.SplitJoin` | main.go:66 | splitting on commas recovers the pieces that were joined with commas, when no piece holds a comma |
| `Text.SplitAtFirst` | main.go:73 | `strings.SplitN(pair, ":", 2)`: two pieces iff the input holds a colon; then the first piece holds no colon and the pieces around a colon give back the input; otherwise the one piece is the input |
| `Text.SplitAtFirstOf` | main.go:73 | splitting at most once on ':' cuts at the first colon, and later colons stay in the second half |
| `Users.ParseSegment` | main.go:67-83 | a segment is skipped iff it is all whitespace; it is malformed iff it is not blank and has no colon; the error carries the trimmed segment; an account it yields has a non-empty, trimmed, colon-free username and a non-empty, trimmed password |
| `Users.ParseSegmentEntry` | main.go:73-82 | a segment yields account (u, p) iff it has a colon, u surrounded by whitespace is the text before the first colon, p surrounded by whitespace is the text after it, and both are non-empty |
| `Users.ParseSegmentMalformed` | main.go:73-76 | a non-blank segment without a colon fails as malformed, reporting the trimmed segment |
| `Users.ParseSegmentEmptyCredential` | main.go:77-81 | a segment fails for an empty credential iff it has a colon and the text on one side of the first colon is blank |
| `Users.AddSegments` | main.go:67-83 | the loop only adds usernames, keeps every stored account well formed, and fails only with the error of a bad segment it met |
| `Users.AddSegmentsLastWins` | main.go:82 | a username ends up with the password of the last segment naming it |
| `Users.ParseUsers` | main.go:57-89 | the empty string gives exactly `{admin: 123456}`; every success is a non-empty store of well-formed accounts; only a non-empty string can fail |
| `Users.ParseUsersAccepts` | main.go:66-88 | a non-empty string is accepted iff no segment is bad and at least one segment yields an account |
| `Users.ParseUsersFirstError` | main.go:67-81 | the error reported is that of the first bad segment |
| `Users.ParseUsersKeys` | main.go:82 | the stored usernames are exactly those some segment yields an account for |
| `Users.ParseUsersLastWins` | main.go:82 | a later duplicate username overwrites an earlier one |
| `Users.ParseUsersNoValidUsers` | main.go:85-87 | parsing fails for configuring nobody iff the string is non-empty and made only of commas and whitespace |
| `Users.ParseUsersTrailingBlank` | main.go:68-71 | a trailing comma followed by whitespace only is skipped and changes nothing |
| `Users.ParseUsersFormat` | main.go:57-89 | writing well-formed accounts as `u1:p1,u2:p2,…` and parsing the result gives the store of those accounts, the last entry winning per username |
| `Users.StoreOfLast` | main.go:82 | in that store, a username maps to the password of its last entry |
| `Users.ParseUsersSingle` | main.go:73-78 | `alice:pass:word` stores `pass:word` for `alice`, for every such name and password |
| `Users.ParseUsersDuplicate` | main.go:82 | `a:1,a:2` stores `{a: 2}`, for every such name and passwords |
| `Users.ParseUsersMissingColon` | main.go:74-76 | `a:1,bad` fails on `bad`, which has no colon |
| `Users.ParseUsersEmptyUsername` | main.go:79-81 | `:1` fails for its empty username |
| `Users.ParseUsersEmptyPassword` | main.go:79-81 | `user:` followed by whitespace only fails for its empty password |
| `HostPort.SplitHostPort` | main.go:26 | a split host has no brackets; a split port has no brackets and no colon; the address is `[host]:port`, or `host:port` with a colon-free host; an address without a colon fails for its missing port |
| `HostPort.SplitHostPortIff` | main.go:26 | the split succeeds with (h, p) exactly for those two forms of h and p |
| `HostPort.SplitJoinHostPort` | main.go:26 | splitting undoes `net.JoinHostPort` |
| `HostPort.SplitHostPortTwoColons` | main.go:26-29 | an unbracketed address with two colons, such as a bare IPv6 address, fails for too many colons |
| `HostPort.ClientIP` | main.go:24-31 | the client identifier is never longer than the address, and equals the raw address exactly when the split fails |
| `HostPort.ClientIPOfJoin` | main.go:24-31 | for an address built from host and port, the client identifier is the host |
| `HostPort.ClientIPOfSplit` | main.go:26-30 | for any address that splits, bracketed or not, such as `[1.2.3.4]:80`, the client identifier is the host without brackets |
| `HostPort.ClientIPNoPort` | main.go:27-28 | an address without a colon is returned unchanged |
| `Handlers.HttpError` | main.go:101 | the error response has the given status and the message and a newline as its body; the headers `http.Error` leaves are plain-text and nosniff, no Content-Length, and every other header set before it |
| `Handlers.BasicAuth` | main.go:92-118 | with credentials the store holds, the inner handler's response is returned and its trace follows one authentication-success event; otherwise the response is the 401 challenge and the trace is one failure event: the missing-credentials line with client and path (main.go:99), or the rejected-credentials line with client, username and path (main.go:108) |
| `Handlers.BasicAuthAudit` | main.go:97-116 | the gate logs exactly one authentication outcome of its own, and consults the inner handler only for an authorized request |
| `Handlers.BasicAuthGuards` | main.go:105-116 | around any inner handler, every access or file-server call in the trace is preceded by an authentication success |
| `Handlers.Unauthorized` | main.go:100-101 | the 401 response carries `WWW-Authenticate: Basic realm="File Server Login"`, a plain-text content type and the failure message |
| `Handlers.LoggingFile` | main.go:121-128 | the handler `loggingFileHandler` returns: it answers what the file server answers, calls the file server for the request's path, and every event it causes is a file access |
| `Handlers.LoggingFileTransparent` | main.go:121-128 | the access logger returns the file server's response unchanged, logs client and path once before calling the file server, and logs no authentication outcome |
| `Handlers.Root` | main.go:161-162 | the handler registered for `/`: a request gets the file server's answer when the store holds its credentials, and the 401 challenge otherwise |
| `Handlers.RootTrace` | main.go:161-162 | the full trace of a request, branch by branch: no credentials, rejected credentials, or success followed by the access line and the file-server call, all naming the same client and path |
| `Handlers.RootServesIffAuthorized` | main.go:161-162 | the file server is called iff the store holds the credentials; its answer is returned then, and the 401 challenge otherwise |
| `Handlers.RootAuditsOnce` | main.go:161-162 | every request that reaches the handler leaves exactly one authentication line |
| `Handlers.RootGuarded` | main.go:161-162 | in the composed handler, nothing is read before a successful authentication |
| `Handlers.DefaultAccount` | main.go:59-62 | with an empty `-users` string, a request is served iff it presents `admin` / `123456` |
| `Handlers.RootServesConfigured` | main.go:145-162 | for a configuration written as `u1:p1,…`, a request is served iff its password is the one of the last entry for its username |

## Left out

- Flag parsing, the start-up log lines and `http.ListenAndServe` (main.go:130-180): command-line and network plumbing. `Handlers.Root` takes the store and the file server as parameters.
- `initLogger` (main.go:34-54): it creates directories, opens files and sets up `io.MultiWriter`, which is file I/O.
- Log lines are abstract `Event` values. The exact Chinese message texts, the timestamp prefix and the writes to console and file are not modelled.
- Resolving the shared root and checking that it exists (main.go:147-158): these are filesystem calls.
- `http.FileServer`: what it answers (200, 404, a directory listing) is the parameter `fs`. The model records only that it was called for the path.
- Concurrency: each request is handled on its own goroutine. The store is read-only after start-up, so one request is modelled at a time.
- `r.BasicAuth()`: its base64 decoding and header parsing are not modelled. A missing or malformed `Authorization` header is `None`.
- The exit of the process on `log.Fatalf`/`log.Fatal`: this is the `Failure` value of `ParseUsers`.
- `net.SplitHostPort`, `net.JoinHostPort` and `http.Error`: these are standard-library code outside the repository. They are modelled on the Go standard library's behaviour. `HostPort.SplitHostPort` works on characters rather than UTF-8 bytes. This gives the same result because ':', '[' and ']' are ASCII.
- `strings.TrimSpace` on invalid UTF-8: strings here are sequences of Unicode scalar values, so byte sequences that do not decode are not represented.
- What Go's server adds after the handler returns, such as `Content-Length` and `Date` for a small buffered body: the model stops at the headers the handlers set.
- The path cleaning of `http.DefaultServeMux`: a request whose path is not clean (`/a/../b`, `//x`) is redirected with 301 before `basicAuth` runs. The handler properties hold for every request that reaches the handler.
- Header-name canonicalisation and the status line of the 401 response: the model uses the header names as main.go writes them.
- The example configurations (`alice:pass:word`, `a:1,a:2`, `a:1,bad`, `:1`) are proved for every choice of names rather than for the literal strings.
