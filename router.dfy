/**
 * Src\Core\Router: the route table, request-URI normalisation, the
 * authentication gate, and dispatch to the first matching route.
 *
 * A route such as "/items/{id}/related" is turned into the regular
 * expression `#^/items/([a-zA-Z0-9_-]+)/related$#` by replacing every
 * placeholder `{name}` (a letter or `_`, then letters, digits or `_`).
 * Patterns are modelled as a sequence of segments (a literal character, or a
 * capture group), and matching follows PCRE: the group is greedy and gives
 * back characters on failure, and `$` also matches before a newline that
 * ends the subject.
 */
module Router {
  import opened Strings
  import opened Php
  import opened Http

  // ---------------------------------------------------------------------------
  // Route patterns

  datatype Seg = Lit(c: char) | Param

  predicate IsNameStart(c: char) { ('a' <= c <= 'z') || ('A' <= c <= 'Z') || c == '_' }

  predicate IsNameChar(c: char) { IsNameStart(c) || IsDigit(c) }

  /** The characters of the capture group `[a-zA-Z0-9_-]`. */
  predicate IsCapChar(c: char) { IsNameChar(c) || c == '-' }

  /** A placeholder name: `[a-zA-Z_][a-zA-Z0-9_]*`. */
  predicate IsName(n: string) {
    |n| >= 1 && IsNameStart(n[0]) && forall k :: 1 <= k < |n| ==> IsNameChar(n[k])
  }

  function NameRun(s: string): (n: nat)
    ensures n <= |s| && (forall k :: 0 <= k < n ==> IsNameChar(s[k])) && (n < |s| ==> !IsNameChar(s[n]))
    decreases |s|
  {
    if s != [] && IsNameChar(s[0]) then 1 + NameRun(s[1..]) else 0
  }

  /** The length of the placeholder `{name}` at the start of `s`, or 0 when there is none. */
  function PlaceholderLen(s: string): (n: nat)
    ensures n == 0 || (3 <= n <= |s| && s[0] == '{' && s[n - 1] == '}' && IsName(s[1..n - 1]))
  {
    if |s| >= 2 && s[0] == '{' && IsNameStart(s[1]) then
      var m := NameRun(s[2..]);
      if 2 + m < |s| && s[2 + m] == '}' then 3 + m else 0
    else 0
  }

  /** `preg_replace('/\{[a-zA-Z_][a-zA-Z0-9_]*\}/', '([a-zA-Z0-9_-]+)', $route)`, scanning left to right. */
  function Compile(route: string): seq<Seg>
    decreases |route|
  {
    if route == [] then []
    else if PlaceholderLen(route) > 0 then [Param] + Compile(route[PlaceholderLen(route)..])
    else [Lit(route[0])] + Compile(route[1..])
  }

  /** The segments of a text taken literally. */
  function Lits(a: string): seq<Seg> {
    seq(|a|, k requires 0 <= k < |a| => Lit(a[k]))
  }

  /** Text without an opening brace is copied literally. */
  lemma {:induction false} CompileLiteral(a: string, b: string)
    requires '{' !in a
    ensures Compile(a + b) == Lits(a) + Compile(b)
    decreases |a|
  {
    if a == [] {
      assert a + b == b;
    } else {
      CompileLiteralStep(a, b);
      CompileLiteral(a[1..], b);
      LitsStep(a, Compile(b));
    }
  }

  lemma CompileLiteralStep(a: string, b: string)
    requires '{' !in a && a != []
    ensures Compile(a + b) == [Lit(a[0])] + Compile(a[1..] + b)
  {
    var ab := a + b;
    assert ab[0] == a[0];
    assert a[0] != '{' by { assert a[0] in a; }
    assert ab[1..] == a[1..] + b;
  }

  lemma LitsStep(a: string, rest: seq<Seg>)
    requires a != []
    ensures Lits(a) + rest == [Lit(a[0])] + (Lits(a[1..]) + rest)
  {
    assert Lits(a) == [Lit(a[0])] + Lits(a[1..]);
  }

  /** Every placeholder becomes one capture group, whatever its name. */
  lemma CompilePlaceholder(name: string, b: string)
    requires IsName(name)
    ensures Compile("{" + name + "}" + b) == [Param] + Compile(b)
  {
    var s := "{" + name + "}" + b;
    var tail := s[2..];
    assert tail == name[1..] + ("}" + b);
    NameRunPrefix(name[1..], "}" + b);
    assert s[0] == '{' && s[1] == name[0] && s[|name| + 1] == '}';
    assert PlaceholderLen(s) == |name| + 2;
    assert s[|name| + 2..] == b;
  }

  lemma {:induction false} NameRunPrefix(a: string, b: string)
    requires forall k :: 0 <= k < |a| ==> IsNameChar(a[k])
    requires b != [] && !IsNameChar(b[0])
    ensures NameRun(a + b) == |a|
    decreases |a|
  {
    if a != [] {
      assert (a + b)[1..] == a[1..] + b;
      NameRunPrefix(a[1..], b);
    } else {
      assert a + b == b;
    }
  }

  /** Renaming the placeholders of a route does not change its pattern. */
  lemma PlaceholderNamesIrrelevant(a: string, n1: string, n2: string, b: string)
    requires '{' !in a && IsName(n1) && IsName(n2)
    ensures Compile(a + "{" + n1 + "}" + b) == Compile(a + "{" + n2 + "}" + b)
  {
    assert a + "{" + n1 + "}" + b == a + ("{" + n1 + "}" + b);
    assert a + "{" + n2 + "}" + b == a + ("{" + n2 + "}" + b);
    CompileLiteral(a, "{" + n1 + "}" + b);
    CompileLiteral(a, "{" + n2 + "}" + b);
    CompilePlaceholder(n1, b);
    CompilePlaceholder(n2, b);
  }

  // ---------------------------------------------------------------------------
  // Matching `#^pattern$#`

  /** How far the group `[a-zA-Z0-9_-]+` can reach at the start of `s`. */
  function CapRun(s: string): (n: nat)
    ensures n <= |s| && (forall k :: 0 <= k < n ==> IsCapChar(s[k])) && (n < |s| ==> !IsCapChar(s[n]))
    decreases |s|
  {
    if s != [] && IsCapChar(s[0]) then 1 + CapRun(s[1..]) else 0
  }

  /**
   * The captures of the first match PCRE finds for the anchored pattern, or
   * None. The end anchor accepts the end of the subject or a final newline.
   */
  function Match(p: seq<Seg>, s: string): Option<seq<string>>
    decreases |p|, 1, 0
  {
    if p == [] then (if s == "" || s == "\n" then Some([]) else None)
    else match p[0]
      case Lit(c) => if s != [] && s[0] == c then Match(p[1..], s[1..]) else None
      case Param => TryParam(p[1..], s, CapRun(s))
  }

  /** The group takes `n` characters, then fewer on failure, down to one. */
  function TryParam(rest: seq<Seg>, s: string, n: nat): Option<seq<string>>
    requires n <= |s|
    decreases |rest| + 1, 0, n
  {
    if n == 0 then None
    else match Match(rest, s[n..])
      case Some(caps) => Some([s[..n]] + caps)
      case None => TryParam(rest, s, n - 1)
  }

  function ParamCount(p: seq<Seg>): nat {
    if p == [] then 0 else (if p[0] == Param then 1 else 0) + ParamCount(p[1..])
  }

  /** The text a pattern denotes once its groups are given the texts `caps`. */
  function Fill(p: seq<Seg>, caps: seq<string>): string
    requires |caps| == ParamCount(p)
  {
    if p == [] then ""
    else match p[0]
      case Lit(c) => [c] + Fill(p[1..], caps)
      case Param => caps[0] + Fill(p[1..], caps[1..])
  }

  predicate IsCapture(x: string) { |x| >= 1 && forall k :: 0 <= k < |x| ==> IsCapChar(x[k]) }

  /** `s` is an instance of the pattern with the group texts `caps` (possibly followed by one newline). */
  predicate Fits(p: seq<Seg>, s: string, caps: seq<string>) {
    |caps| == ParamCount(p) && (forall i :: 0 <= i < |caps| ==> IsCapture(caps[i])) &&
    (s == Fill(p, caps) || s == Fill(p, caps) + "\n")
  }

  /** What the matcher returns is a way of reading `s` as the pattern. */
  lemma {:induction false} MatchSound(p: seq<Seg>, s: string)
    ensures Match(p, s).Some? ==> Fits(p, s, Match(p, s).value)
    decreases |p|, 1, 0
  {
    if p != [] {
      match p[0]
      case Lit(c) =>
        if s != [] && s[0] == c {
          MatchSound(p[1..], s[1..]);
          if Match(p, s).Some? {
            var caps := Match(p, s).value;
            assert s == [c] + s[1..];
            assert Fill(p, caps) == [c] + Fill(p[1..], caps);
            assert ([c] + Fill(p[1..], caps)) + "\n" == [c] + (Fill(p[1..], caps) + "\n");
          }
        }
      case Param =>
        TryParamSound(p[1..], s, CapRun(s));
    }
  }

  lemma {:induction false} TryParamSound(rest: seq<Seg>, s: string, n: nat)
    requires n <= CapRun(s)
    ensures TryParam(rest, s, n).Some? ==> Fits([Param] + rest, s, TryParam(rest, s, n).value)
    decreases |rest| + 1, 0, n
  {
    if n > 0 {
      MatchSound(rest, s[n..]);
      match Match(rest, s[n..])
      case Some(caps) =>
        ParamFits(rest, s, n, caps);
      case None =>
        TryParamSound(rest, s, n - 1);
    }
  }

  /** A group of `n` characters followed by a reading of the rest is a reading of the whole. */
  lemma ParamFits(rest: seq<Seg>, s: string, n: nat, caps: seq<string>)
    requires 0 < n <= CapRun(s) && Fits(rest, s[n..], caps)
    ensures Fits([Param] + rest, s, [s[..n]] + caps)
  {
    var x, f := s[..n], Fill(rest, caps);
    ParamFill(rest, caps, x);
    assert s == x + s[n..];
    if s[n..] != f {
      assert x + (f + "\n") == (x + f) + "\n";
    }
    assert IsCapture(x);
    CapturesCons(x, caps);
  }

  /** A leading group adds one to the count and its text in front of the filled rest. */
  lemma ParamFill(rest: seq<Seg>, caps: seq<string>, x: string)
    requires |caps| == ParamCount(rest)
    ensures ParamCount([Param] + rest) == 1 + ParamCount(rest)
    ensures Fill([Param] + rest, [x] + caps) == x + Fill(rest, caps)
  {
    var p, all := [Param] + rest, [x] + caps;
    assert p[1..] == rest && all[1..] == caps;
  }

  /** One more capture text that is a capture keeps all of them captures. */
  lemma CapturesCons(x: string, caps: seq<string>)
    requires IsCapture(x) && forall i :: 0 <= i < |caps| ==> IsCapture(caps[i])
    ensures forall i :: 0 <= i < |[x] + caps| ==> IsCapture(([x] + caps)[i])
  {
    var all := [x] + caps;
    assert forall i :: 1 <= i < |all| ==> all[i] == caps[i - 1];
  }

  /** Every way of reading `s` as the pattern is found: the matcher does not miss a match. */
  lemma {:induction false} MatchComplete(p: seq<Seg>, s: string, caps: seq<string>)
    requires Fits(p, s, caps)
    ensures Match(p, s).Some?
    decreases |p|
  {
    if p != [] {
      match p[0]
      case Lit(c) =>
        assert Fill(p, caps) == [c] + Fill(p[1..], caps);
        assert (if s == Fill(p, caps) then s[1..] == Fill(p[1..], caps) else s[1..] == Fill(p[1..], caps) + "\n");
        MatchComplete(p[1..], s[1..], caps);
      case Param =>
        var x := caps[0];
        var rest := p[1..];
        var tail := Fill(rest, caps[1..]);
        assert Fill(p, caps) == x + tail;
        var t := s[|x|..];
        assert s[..|x|] == x;
        assert t == tail || t == tail + "\n";
        assert forall i :: 0 <= i < |caps[1..]| ==> caps[1..][i] == caps[i + 1];
        MatchComplete(rest, t, caps[1..]);
        assert forall k :: 0 <= k < |x| ==> IsCapChar(s[k]);
        assert CapRun(s) >= |x|;
        TryParamComplete(rest, s, CapRun(s), |x|);
    }
  }

  lemma {:induction false} TryParamComplete(rest: seq<Seg>, s: string, n: nat, m: nat)
    requires 1 <= m <= n <= |s| && Match(rest, s[m..]).Some?
    ensures TryParam(rest, s, n).Some?
    decreases n
  {
    if Match(rest, s[n..]).None? {
      TryParamComplete(rest, s, n - 1, m);
    }
  }

  /** A route without placeholders matches exactly itself, with or without one final newline. */
  lemma LiteralRouteMatch(route: string, uri: string)
    requires '{' !in route
    ensures Match(Compile(route), uri).Some? <==> uri == route || uri == route + "\n"
    ensures Match(Compile(route), uri).Some? ==> Match(Compile(route), uri).value == []
  {
    CompileLiteral(route, "");
    assert route + "" == route;
    LitsMatch(route, uri);
  }

  /** A route without placeholders matches its own text, capturing nothing. */
  lemma LiteralRouteSelf(route: string)
    requires '{' !in route
    ensures Match(Compile(route), route) == Some([])
  {
    LiteralRouteMatch(route, route);
  }

  lemma {:induction false} LitsMatch(a: string, s: string)
    ensures Match(Lits(a), s) == (if s == a || s == a + "\n" then Some([]) else None)
    decreases |a|
  {
    if a != [] {
      assert Lits(a)[1..] == Lits(a[1..]);
      LitsMatch(a[1..], if s == [] then s else s[1..]);
      if s != [] && s[0] == a[0] {
        assert s == a <==> s[1..] == a[1..];
        assert s == a + "\n" <==> s[1..] == a[1..] + "\n" by {
          assert (a + "\n")[1..] == a[1..] + "\n";
        }
      }
    }
  }

  // ---------------------------------------------------------------------------
  // The route table

  /** Per HTTP method, the routes in registration order and their "Class@method" handlers. */
  type Table = OrderedMap<string>

  function TableOf(routes: map<string, Table>, m: string): Table {
    if m in routes then routes[m] else EmptyMap()
  }

  /** `$this->routes[$m][$uri] = $controller`. */
  function AddRoute(routes: map<string, Table>, m: string, uri: string, controller: string): map<string, Table> {
    routes[m := Put(TableOf(routes, m), uri, controller)]
  }

  ghost predicate TablesWf(routes: map<string, Table>) {
    forall m :: m in routes ==> Wf(routes[m])
  }

  /**
   * Registering a route sets its handler, keeps the table well formed and
   * leaves the other methods alone; a route registered again keeps its
   * original place in the order and takes the new handler.
   */
  lemma RegisterSpec(routes: map<string, Table>, m: string, uri: string, controller: string)
    requires TablesWf(routes)
    ensures var r := AddRoute(routes, m, uri, controller);
      TablesWf(r) && Get(TableOf(r, m), uri) == Some(controller) &&
      (forall m' :: m' != m ==> TableOf(r, m') == TableOf(routes, m')) &&
      (Has(TableOf(routes, m), uri) ==> TableOf(r, m).keys == TableOf(routes, m).keys) &&
      (!Has(TableOf(routes, m), uri) ==> TableOf(r, m).keys == TableOf(routes, m).keys + [uri])
  {
    PutOrder(TableOf(routes, m), uri, controller);
  }

  // ---------------------------------------------------------------------------
  // Requests and outcomes

  datatype Request = Request(verb: string, path: string, authorization: Option<string>)

  /** What dispatch does: call a controller action with the captured parameters, or answer itself. */
  datatype Outcome = Invoke(controller: string, action: string, args: seq<string>) | Reply(response: Response)

  /** The prefix removed from request paths: "/api" when APP_ENV is production or prod. */
  function BasePath(appEnv: Option<string>): string {
    var env := if appEnv.Some? then appEnv.value else "development";
    if env == "production" || env == "prod" then "/api" else ""
  }

  /** getRequestUri, given the path part of REQUEST_URI and APP_ENV. */
  function RequestUri(path: string, appEnv: Option<string>): string {
    var base := BasePath(appEnv);
    if base != "" && |base| <= |path| && path[..|base|] == base then
      var rest := path[|base|..];
      if rest == "" || rest == "0" then "/" else rest
    else path
  }

  /**
   * In production the path loses a leading "/api" (and "/api" or "/api0"
   * alone becomes "/"); any other path, and every path outside production,
   * is kept as it is.
   */
  lemma RequestUriSpec(path: string, appEnv: Option<string>)
    ensures appEnv == Some("production") || appEnv == Some("prod") ==>
      if |path| >= 4 && path[..4] == "/api" then
        RequestUri(path, appEnv) == (if path[4..] == "" || path[4..] == "0" then "/" else path[4..])
      else RequestUri(path, appEnv) == path
    ensures !(appEnv == Some("production") || appEnv == Some("prod")) ==> RequestUri(path, appEnv) == path
  {
  }

  const PublicRoutes: seq<string> :=
    ["/auth/login", "/auth/register", "/auth/request-reset", "/auth/reset-password", "/health", "/info"]

  const PrivateGetRoutes: seq<string> := ["/auth/me", "/auth/profile"]

  predicate MatchesPrivateGet(uri: string) {
    exists k :: 0 <= k < |PrivateGetRoutes| && Match(Compile(PrivateGetRoutes[k]), uri).Some?
  }

  /**
   * `$isPublicRoute`: a GET is public unless it matches a private GET route;
   * any other method is public when the path is one of the public routes.
   * (The public list holds no numeric strings, so `in_array`'s loose
   * comparison is plain equality here.)
   */
  predicate IsPublic(verb: string, uri: string) {
    if verb == "GET" then !MatchesPrivateGet(uri) else uri in PublicRoutes
  }

  predicate NeedsAuth(verb: string, uri: string) {
    !IsPublic(verb, uri) || verb == "PUT" || verb == "DELETE"
  }

  datatype Gate = Through | Denied(body: PhpArray)

  /** The algorithm dispatch decodes tokens with: HS256, whatever `jwt.algorithm` says. */
  const RouterAlgorithm: string := "HS256"

  /** The authentication block of dispatch, with the JWT_SECRET key and HS256, and the sessions table after it. */
  function RouterGate(header: Option<string>, key: string, decode: Decoder, sessions: seq<Session>): (Gate, seq<Session>) {
    match BearerToken(header)
    case None => (Denied(MessageBody("Unauthorized: Missing or invalid token")), sessions)
    case Some(jwt) =>
      match decode(JwtKey(key, RouterAlgorithm), jwt)
      case Valid(c) =>
        if HasSession(sessions, c.userId, jwt) then (Through, sessions)
        else (Denied(MessageBody("Unauthorized: Invalid session")), sessions)
      case Expired =>
        (Denied(MessageBody("Unauthorized: JWT Invalid or Expired")), DeleteByToken(sessions, jwt))
      case Rejected(msg) =>
        (Denied(Put(MessageBody("Unauthorized: Invalid token"), "error", VStr(msg))), sessions)
  }

  /**
   * The gate lets a request through exactly when the header carries a bearer
   * token that decodes to claims whose user has a session with that token.
   * It changes the sessions table only for an expired token, and then by
   * deleting exactly that token's rows.
   */
  lemma RouterGateSpec(header: Option<string>, key: string, decode: Decoder, sessions: seq<Session>)
    ensures var (g, after) := RouterGate(header, key, decode, sessions);
      (g.Through? <==>
         (BearerToken(header).Some? && decode(JwtKey(key, RouterAlgorithm), BearerToken(header).value).Valid? &&
          HasSession(sessions, decode(JwtKey(key, RouterAlgorithm), BearerToken(header).value).claims.userId, BearerToken(header).value))) &&
      (after != sessions ==> BearerToken(header).Some? && decode(JwtKey(key, RouterAlgorithm), BearerToken(header).value).Expired?) &&
      (BearerToken(header).Some? && decode(JwtKey(key, RouterAlgorithm), BearerToken(header).value).Expired? ==>
         after == DeleteByToken(sessions, BearerToken(header).value))
  {
  }

  /** `[$class, $method] = explode('@', $controller)`, then the call; a handler without "@" has no method and fails. */
  function Handler(controller: string, args: seq<string>): Outcome {
    var parts := Split(controller, '@');
    if |parts| >= 2 then Invoke(parts[0], parts[1], args)
    else Reply(Fatal("Method name must be a string"))
  }

  /** A handler "C@a" calls action `a` of controller `C` with the given arguments. */
  lemma HandlerSpec(c: string, a: string, args: seq<string>)
    requires '@' !in c && '@' !in a
    ensures Handler(c + "@" + a, args) == Invoke(c, a, args)
  {
    SplitJoin([c, a], '@');
    assert Join("@", [c, a]) == c + "@" + a;
  }

  datatype Hit = Hit(index: nat, handler: string, args: seq<string>)

  /** The first route, at position `i` or later, whose pattern matches. */
  function FirstMatch(t: Table, i: nat, uri: string): (r: Option<Hit>)
    requires Wf(t)
    ensures r.Some? ==>
      (i <= r.value.index < |t.keys| && Match(Compile(t.keys[r.value.index]), uri) == Some(r.value.args) &&
       r.value.handler == t.vals[t.keys[r.value.index]] &&
       forall k :: i <= k < r.value.index ==> Match(Compile(t.keys[k]), uri).None?)
    ensures r.None? ==> forall k :: i <= k < |t.keys| ==> Match(Compile(t.keys[k]), uri).None?
    decreases |t.keys| - i
  {
    if i >= |t.keys| then None
    else match Match(Compile(t.keys[i]), uri)
      case Some(caps) => Some(Hit(i, t.vals[t.keys[i]], caps))
      case None => FirstMatch(t, i + 1, uri)
  }

  const NotFound: Response := Json(404, MessageBody("Route not found"))

  /** What dispatch does with a request, and the sessions table afterwards. */
  function DispatchSpec(routes: map<string, Table>, req: Request, appEnv: Option<string>, key: string,
                        decode: Decoder, sessions: seq<Session>): (Outcome, seq<Session>)
    requires TablesWf(routes)
  {
    var uri := RequestUri(req.path, appEnv);
    if req.verb == "OPTIONS" then
      var t := TableOf(routes, "OPTIONS");
      (if uri in t.vals then Handler(t.vals[uri], []) else Reply(Bare(200)), sessions)
    else
      var (g, after) := if NeedsAuth(req.verb, uri) then RouterGate(req.authorization, key, decode, sessions)
                        else (Through, sessions);
      if g.Denied? then (Reply(Json(401, g.body)), after)
      else
        var t := TableOf(routes, req.verb);
        match FirstMatch(t, 0, uri)
        case Some(hit) => (Handler(hit.handler, hit.args), after)
        case None => (Reply(NotFound), after)
  }

  /**
   * The classification block of dispatch: a GET is public unless a private
   * GET pattern matches, tried in order; any other method is public when
   * its path is in the public list.
   */
  method Classify(verb: string, uri: string) returns (isPublic: bool)
    ensures isPublic == IsPublic(verb, uri)
  {
    isPublic := false;
    if verb == "GET" {
      isPublic := true;
      var i := 0;
      while i < |PrivateGetRoutes|
        invariant 0 <= i <= |PrivateGetRoutes|
        invariant isPublic
        invariant forall k :: 0 <= k < i ==> Match(Compile(PrivateGetRoutes[k]), uri).None?
      {
        if Match(Compile(PrivateGetRoutes[i]), uri).Some? {
          isPublic := false;
          break;
        }
        i := i + 1;
      }
    } else if uri in PublicRoutes {
      isPublic := true;
    }
  }

  /** The matching loop of dispatch: routes are tried in registration order. */
  method Lookup(t: Table, uri: string) returns (hit: Option<Hit>)
    requires Wf(t)
    ensures hit == FirstMatch(t, 0, uri)
  {
    var i := 0;
    while i < |t.keys|
      invariant 0 <= i <= |t.keys|
      invariant FirstMatch(t, 0, uri) == FirstMatch(t, i, uri)
    {
      var m := Match(Compile(t.keys[i]), uri);
      if m.Some? {
        return Some(Hit(i, t.vals[t.keys[i]], m.value));
      }
      i := i + 1;
    }
    return None;
  }

  class Router {
    var routes: map<string, Table>

    ghost predicate Valid()
      reads this
    {
      TablesWf(routes)
    }

    constructor()
      ensures Valid() && routes == map[]
    {
      routes := map[];
    }

    method Register(m: string, uri: string, controller: string)
      requires Valid()
      modifies this
      ensures Valid() && routes == AddRoute(old(routes), m, uri, controller)
    {
      RegisterSpec(routes, m, uri, controller);
      routes := routes[m := Php.Put(TableOf(routes, m), uri, controller)];
    }

    method Get(uri: string, controller: string)
      requires Valid()
      modifies this
      ensures Valid() && routes == AddRoute(old(routes), "GET", uri, controller)
    {
      Register("GET", uri, controller);
    }

    method Post(uri: string, controller: string)
      requires Valid()
      modifies this
      ensures Valid() && routes == AddRoute(old(routes), "POST", uri, controller)
    {
      Register("POST", uri, controller);
    }

    method Put(uri: string, controller: string)
      requires Valid()
      modifies this
      ensures Valid() && routes == AddRoute(old(routes), "PUT", uri, controller)
    {
      Register("PUT", uri, controller);
    }

    method Delete(uri: string, controller: string)
      requires Valid()
      modifies this
      ensures Valid() && routes == AddRoute(old(routes), "DELETE", uri, controller)
    {
      Register("DELETE", uri, controller);
    }

    method Options(uri: string, controller: string)
      requires Valid()
      modifies this
      ensures Valid() && routes == AddRoute(old(routes), "OPTIONS", uri, controller)
    {
      Register("OPTIONS", uri, controller);
    }

    /**
     * dispatch(): the request, APP_ENV, the JWT_SECRET key and the JWT
     * decoder are parameters; the sessions table is passed in and returned.
     */
    method Dispatch(req: Request, appEnv: Option<string>, key: string, decode: Decoder, sessions: seq<Session>)
      returns (out: Outcome, after: seq<Session>)
      requires Valid()
      ensures (out, after) == DispatchSpec(routes, req, appEnv, key, decode, sessions)
    {
      var uri := RequestUri(req.path, appEnv);
      if req.verb == "OPTIONS" {
        var t := TableOf(routes, "OPTIONS");
        if uri in t.vals {
          out := Handler(t.vals[uri], []);
        } else {
          out := Reply(Bare(200));
        }
        return out, sessions;
      }

      var isPublic := Classify(req.verb, uri);

      after := sessions;
      var gated := !isPublic || req.verb in ["PUT", "DELETE"];
      assert gated == NeedsAuth(req.verb, uri);
      if gated {
        var gate := RouterGate(req.authorization, key, decode, sessions);
        after := gate.1;
        if gate.0.Denied? {
          return Reply(Json(401, gate.0.body)), after;
        }
      }

      var hit := Lookup(TableOf(routes, req.verb), uri);
      if hit.Some? {
        return Handler(hit.value.handler, hit.value.args), after;
      }
      return Reply(NotFound), after;
    }
  }
}
