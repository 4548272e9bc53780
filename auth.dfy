/**
 * The authentication gate: which paths count as protected, and what the HTTP
 * Basic middleware does with a request (section 2 of RFC 7617: a 401 answer
 * carrying the challenge `Basic realm="..."`). Parsing the Authorization
 * header is r.BasicAuth's business; here its result is an input.
 */
module Auth {
  import opened Wrappers
  import opened Http

  /** The prefixes isProtectedPath searches, in its order. */
  const ProtectedPrefixes: seq<string> := ["/download/", "/gettemplink/", "/walk/", "/favicon.ico"]

  /** A path is protected when it starts with one of the four prefixes. */
  predicate HasProtectedPrefix(p: string)
  {
    || "/download/" <= p
    || "/gettemplink/" <= p
    || "/walk/" <= p
    || "/favicon.ico" <= p
  }

  /** isProtectedPath: a search over the prefix list that answers true at the first match. */
  method IsProtectedPath(p: string) returns (r: bool)
    ensures r == HasProtectedPrefix(p)
  {
    var i := 0;
    while i < |ProtectedPrefixes|
      invariant 0 <= i <= |ProtectedPrefixes|
      invariant forall k :: 0 <= k < i ==> !(ProtectedPrefixes[k] <= p)
    {
      if ProtectedPrefixes[i] <= p {
        return true;
      }
      i := i + 1;
    }
    assert !(ProtectedPrefixes[0] <= p) && !(ProtectedPrefixes[1] <= p);
    assert !(ProtectedPrefixes[2] <= p) && !(ProtectedPrefixes[3] <= p);
    return false;
  }

  /**
   * The home page, a temporary link and a walk URL without its trailing
   * slash are open to everyone; anything under "/walk/" and anything merely
   * starting with "/favicon.ico" is not.
   */
  lemma OpenAndProtectedPaths(token: string, rest: string)
    ensures !HasProtectedPrefix("/")
    ensures !HasProtectedPrefix("/temp/" + token)
    ensures !HasProtectedPrefix("/walk")
    ensures HasProtectedPrefix("/walk/" + rest)
    ensures HasProtectedPrefix("/favicon.ico" + rest)
  {
    var t := "/temp/" + token;
    assert t[1] == 't';
  }

  /** The Basic credentials a request carries. */
  datatype Credentials = Credentials(user: string, pass: string)

  /** The handler BasicAuthMiddleware returns: next itself, or next behind a credentials check. */
  datatype Gate = Next | CheckBasic(username: string, password: string)

  function BasicAuthMiddleware(username: string, password: string): Gate
  {
    if username == "" || password == "" then Next else CheckBasic(username, password)
  }

  /** What serving a request through a gate does: call next, or answer it without calling next. */
  datatype Outcome<L> = CallNext | Reject(resp: Response<L>)

  /** The answer http.Error writes after the challenge header is set. */
  function Unauthorized<L>(): Response<L>
  {
    Response(StatusUnauthorized,
      map["WWW-Authenticate" := "Basic realm=\"simplefileserver\"",
          "Content-Type" := "text/plain; charset=utf-8",
          "X-Content-Type-Options" := "nosniff"],
      Text("Unauthorized.\n"))
  }

  /** Serving a request through a gate; `presented` is r.BasicAuth(), None when it reports !ok. */
  function ServeGate<L>(g: Gate, presented: Option<Credentials>): Outcome<L>
  {
    match g
    case Next => CallNext
    case CheckBasic(username, password) =>
      if presented.None? || presented.value.user != username || presented.value.pass != password then
        Reject(Unauthorized())
      else
        CallNext
  }

  /** Without both a user name and a password configured, every request passes. */
  lemma FailOpen<L>(username: string, password: string, presented: Option<Credentials>)
    requires username == "" || password == ""
    ensures ServeGate<L>(BasicAuthMiddleware(username, password), presented) == CallNext
  {
  }

  /**
   * With both configured, a request reaches next exactly when it carries
   * those very credentials; every other request gets the 401 challenge.
   */
  lemma OnlyMatchingCredentialsPass<L>(username: string, password: string, presented: Option<Credentials>)
    requires username != "" && password != ""
    ensures ServeGate<L>(BasicAuthMiddleware(username, password), presented) ==
      if presented == Some(Credentials(username, password)) then CallNext else Reject(Unauthorized())
  {
  }
}
