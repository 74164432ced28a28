/** The request path of main.go: `basicAuth` in front of
    `loggingFileHandler`, which wraps Go's static file server. A handler
    maps a request to the response it writes together with the trace of log
    lines and file-server calls it makes; the file server itself is a
    parameter `fs`, since only its being called or not matters here. */
module Handlers {
  import opened Wrappers
  import opened Users
  import opened HostPort

  /** What `r.BasicAuth()` decodes from the `Authorization` header. */
  datatype Credentials = Credentials(user: string, pass: string)

  /** The parts of a request the handlers read. `auth` is `None` when
      `r.BasicAuth()` reports `ok == false`. */
  datatype Request = Request(remoteAddr: string, path: string, auth: Option<Credentials>)

  datatype Response = Response(status: nat, headers: map<string, string>, body: string)

  /** One log line, or one call into the file server, in the order made. */
  datatype Event =
    | MissingCredentials(client: string, path: string)
    | RejectedCredentials(client: string, user: string, path: string)
    | Authenticated(client: string, user: string, path: string)
    | FileAccess(client: string, path: string)
    | Served(path: string)
  {
    /** The three outcomes `basicAuth` logs. */
    predicate IsAudit() {
      MissingCredentials? || RejectedCredentials? || Authenticated?
    }

    /** Reading a file: the access log line or the file server itself. */
    predicate IsAccess() {
      FileAccess? || Served?
    }
  }

  datatype Outcome = Outcome(response: Response, trace: seq<Event>)

  type Handler = Request -> Outcome

  const StatusUnauthorized: nat := 401

  /** The challenge of section 2 of RFC 7617 with the realm the server uses. */
  const Challenge: string := "Basic realm=\"File Server Login\""

  const FailureMessage: string := "认证失败，请输入正确的用户名和密码"

  /** Go's `http.Error(w, message, code)` on a response whose headers so far
      are `headers`: drop `Content-Length`, declare plain UTF-8 text that must
      not be sniffed, and write the message and a newline. */
  function HttpError(headers: map<string, string>, message: string, code: nat): (resp: Response)
    ensures resp.status == code
    ensures resp.body == message + "\n"
    ensures "Content-Length" !in resp.headers
    ensures "Content-Type" in resp.headers && resp.headers["Content-Type"] == "text/plain; charset=utf-8"
    ensures "X-Content-Type-Options" in resp.headers && resp.headers["X-Content-Type-Options"] == "nosniff"
    ensures forall k :: k in headers && k !in {"Content-Length", "Content-Type", "X-Content-Type-Options"} ==>
              k in resp.headers && resp.headers[k] == headers[k]
  {
    var h := (headers - {"Content-Length"})
      ["Content-Type" := "text/plain; charset=utf-8"]
      ["X-Content-Type-Options" := "nosniff"];
    Response(code, h, message + "\n")
  }

  /** The response to a request that does not authenticate: 401 with the
      Basic challenge, so that a browser asks for a login, and the failure
      message as plain text. */
  function Unauthorized(): (resp: Response)
    ensures resp.status == StatusUnauthorized
    ensures "WWW-Authenticate" in resp.headers && resp.headers["WWW-Authenticate"] == Challenge
    ensures "Content-Type" in resp.headers && resp.headers["Content-Type"] == "text/plain; charset=utf-8"
    ensures resp.body == FailureMessage + "\n"
  {
    HttpError(map["WWW-Authenticate" := Challenge], FailureMessage, StatusUnauthorized)
  }

  /** The store holds this username with exactly this password. */
  predicate Authorized(users: Store, auth: Option<Credentials>) {
    auth.Some? && auth.value.user in users && users[auth.value.user] == auth.value.pass
  }

  /** `basicAuth` in front of `next`, `users` being the store `parseUsers`
      built: a request without credentials, or with credentials the store
      does not hold, is logged and answered 401 with the challenge; any other
      request is logged and handed to `next`. */
  function BasicAuth(users: Store, next: Handler, r: Request): (o: Outcome)
    ensures Authorized(users, r.auth) ==>
              && o.response == next(r).response
              && o.trace == [Authenticated(ClientIP(r.remoteAddr), r.auth.value.user, r.path)] + next(r).trace
    ensures !Authorized(users, r.auth) ==>
              && o.response == Unauthorized()
              && |o.trace| == 1 && o.trace[0].IsAudit() && !o.trace[0].Authenticated?
    ensures r.auth.None? ==> o.trace == [MissingCredentials(ClientIP(r.remoteAddr), r.path)]
    ensures r.auth.Some? && !Authorized(users, r.auth) ==>
              o.trace == [RejectedCredentials(ClientIP(r.remoteAddr), r.auth.value.user, r.path)]
  {
    var client := ClientIP(r.remoteAddr);
    match r.auth
    case None =>
      Outcome(Unauthorized(), [MissingCredentials(client, r.path)])
    case Some(Credentials(user, pass)) =>
      if user !in users || pass != users[user] then
        Outcome(Unauthorized(), [RejectedCredentials(client, user, r.path)])
      else
        var inner := next(r);
        Outcome(inner.response, [Authenticated(client, user, r.path)] + inner.trace)
  }

  /** Go's `http.FileServer(root)`, seen from outside: whatever it answers,
      and the fact that it was called for this path. */
  function FileServer(fs: Request -> Response, r: Request): Outcome {
    Outcome(fs(r), [Served(r.path)])
  }

  /** The closure `loggingFileHandler` returns: log the access, then let the
      file server answer. It answers what the file server answers, and every
      event it causes is a file access: it logs no authentication outcome. */
  function LoggingFile(fs: Request -> Response, r: Request): (o: Outcome)
    ensures o.response == fs(r)
    ensures forall i :: 0 <= i < |o.trace| ==> o.trace[i].IsAccess()
    ensures Served(r.path) in o.trace
  {
    var inner := FileServer(fs, r);
    Outcome(inner.response, [FileAccess(ClientIP(r.remoteAddr), r.path)] + inner.trace)
  }

  function LoggingFileHandler(fs: Request -> Response): Handler {
    r => LoggingFile(fs, r)
  }

  /** The wrapper answers what the file server answers, calls it once for
      the request's path after logging the access under the client's address,
      and logs no authentication outcome of its own. */
  lemma LoggingFileTransparent(fs: Request -> Response, r: Request)
    ensures var o := LoggingFileHandler(fs)(r);
            && o.response == fs(r)
            && o.trace == [FileAccess(ClientIP(r.remoteAddr), r.path), Served(r.path)]
            && AuditCount(o.trace) == 0
  {
    var t := LoggingFileHandler(fs)(r).trace;
    assert t[1..][1..] == [];
    assert AuditCount(t[1..]) == 0;
  }

  /** The handler registered for "/": `basicAuth(loggingFileHandler(root))`.
      A request gets the file server's answer when the store holds its
      credentials, and the 401 challenge otherwise. */
  function Root(users: Store, fs: Request -> Response): (h: Handler)
    ensures forall r :: h(r).response == if Authorized(users, r.auth) then fs(r) else Unauthorized()
  {
    r => BasicAuth(users, LoggingFileHandler(fs), r)
  }

  // ---------------------------------------------------------------------
  // Properties of `basicAuth` around any inner handler

  function AuditCount(t: seq<Event>): nat {
    if t == [] then 0 else (if t[0].IsAudit() then 1 else 0) + AuditCount(t[1..])
  }

  lemma {:induction false} AuditCountAppend(a: seq<Event>, b: seq<Event>)
    ensures AuditCount(a + b) == AuditCount(a) + AuditCount(b)
    decreases |a|
  {
    if a == [] {
      assert a + b == b;
    } else {
      assert (a + b)[1..] == a[1..] + b;
      AuditCountAppend(a[1..], b);
    }
  }

  /** Nothing is read unless an authentication was logged before it. */
  predicate Guarded(t: seq<Event>) {
    forall i :: 0 <= i < |t| && t[i].IsAccess() ==> exists j :: 0 <= j < i && t[j].Authenticated?
  }

  /** `basicAuth` logs exactly one authentication outcome of its own, and
      consults the inner handler only for a request the store authorizes. */
  lemma BasicAuthAudit(users: Store, next: Handler, r: Request)
    ensures var o := BasicAuth(users, next, r);
            && AuditCount(o.trace) == 1 + (if Authorized(users, r.auth) then AuditCount(next(r).trace) else 0)
            && (!Authorized(users, r.auth) ==> |o.trace| == 1)
  {
    var o := BasicAuth(users, next, r);
    if Authorized(users, r.auth) {
      AuditCountAppend([o.trace[0]], next(r).trace);
    } else {
      assert o.trace[1..] == [];
    }
  }

  /** Whatever the inner handler does, no file is read before the request
      authenticated: the guard makes every trace guarded. */
  lemma BasicAuthGuards(users: Store, next: Handler, r: Request)
    ensures Guarded(BasicAuth(users, next, r).trace)
  {
    var t := BasicAuth(users, next, r).trace;
    forall i | 0 <= i < |t| && t[i].IsAccess()
      ensures exists j :: 0 <= j < i && t[j].Authenticated?
    {
      assert t[0].Authenticated?;
    }
  }

  // ---------------------------------------------------------------------
  // Properties of the handler registered for "/"

  /** The whole trace of one request: one authentication outcome, followed,
      only when the credentials match the store, by the access log line and
      the file server call; every event names the client and the path. */
  lemma RootTrace(users: Store, fs: Request -> Response, r: Request)
    ensures var o, client := Root(users, fs)(r), ClientIP(r.remoteAddr);
            o.trace == match r.auth
              case None => [MissingCredentials(client, r.path)]
              case Some(c) =>
                if Authorized(users, r.auth) then
                  [Authenticated(client, c.user, r.path), FileAccess(client, r.path), Served(r.path)]
                else
                  [RejectedCredentials(client, c.user, r.path)]
  {
    LoggingFileTransparent(fs, r);
  }

  /** The file server is called, and its answer returned, exactly for the
      requests whose credentials the store holds; every other request gets
      the 401 challenge. */
  lemma RootServesIffAuthorized(users: Store, fs: Request -> Response, r: Request)
    ensures var o := Root(users, fs)(r);
            && (Served(r.path) in o.trace <==> Authorized(users, r.auth))
            && (Authorized(users, r.auth) ==> o.response == fs(r))
            && (!Authorized(users, r.auth) ==> o.response == Unauthorized())
  {
    RootTrace(users, fs, r);
  }

  /** Every request leaves exactly one authentication line in the log. */
  lemma RootAuditsOnce(users: Store, fs: Request -> Response, r: Request)
    ensures AuditCount(Root(users, fs)(r).trace) == 1
  {
    BasicAuthAudit(users, LoggingFileHandler(fs), r);
    LoggingFileTransparent(fs, r);
  }

  /** The access log line and the file read come after a successful
      authentication. */
  lemma RootGuarded(users: Store, fs: Request -> Response, r: Request)
    ensures Guarded(Root(users, fs)(r).trace)
  {
    BasicAuthGuards(users, LoggingFileHandler(fs), r);
  }

  /** With no `-users` flag, `admin` / `123456` is served and nothing else is. */
  lemma DefaultAccount(fs: Request -> Response, r: Request)
    ensures var users := ParseUsers("").value;
            var o := Root(users, fs)(r);
            Served(r.path) in o.trace <==> r.auth == Some(Credentials(DefaultUser, DefaultPassword))
  {
    var users := ParseUsers("").value;
    RootServesIffAuthorized(users, fs, r);
  }

  /** For a configuration written as `user1:pass1,user2:pass2,...`, a
      request is served iff its username appears and its password is the one
      of the last entry for that username. */
  lemma RootServesConfigured(es: seq<(string, string)>, fs: Request -> Response, r: Request, c: Credentials)
    requires |es| > 0
    requires forall i :: 0 <= i < |es| ==> Writable(es[i])
    requires r.auth == Some(c)
    ensures ParseUsers(FormatUsers(es)).Success?
    ensures var users := ParseUsers(FormatUsers(es)).value;
            Served(r.path) in Root(users, fs)(r).trace <==>
            exists i :: LastEntry(es, i, c.user) && es[i].1 == c.pass
  {
    ParseUsersFormat(es);
    var users := StoreOf(es);
    RootServesIffAuthorized(users, fs, r);
    StoreOfKeys(es, c.user);
    if c.user in users {
      var i := LastIndexFor(es, c.user);
      StoreOfLast(es, i, c.user);
    }
  }
}
