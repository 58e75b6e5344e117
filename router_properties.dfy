/**
 * Properties of the router: which paths the private GET list covers, and
 * what dispatch does before and after the authentication gate.
 */
module RouterProperties {
  import opened Php
  import opened Http
  import opened Router

  /** A GET is private exactly for "/auth/me" and "/auth/profile", each also with a final newline. */
  lemma PrivateGetSpec(uri: string)
    ensures MatchesPrivateGet(uri) <==>
      uri == "/auth/me" || uri == "/auth/me\n" || uri == "/auth/profile" || uri == "/auth/profile\n"
  {
    PrivateGetLiteral();
    LiteralListMatch(PrivateGetRoutes, uri);
    PrivateGetPaths(uri);
  }

  lemma PrivateGetLiteral()
    ensures forall k :: 0 <= k < |PrivateGetRoutes| ==> '{' !in PrivateGetRoutes[k]
  {
  }

  lemma PrivateGetPaths(uri: string)
    ensures (exists k :: 0 <= k < |PrivateGetRoutes| && (uri == PrivateGetRoutes[k] || uri == PrivateGetRoutes[k] + "\n")) <==>
      uri == "/auth/me" || uri == "/auth/me\n" || uri == "/auth/profile" || uri == "/auth/profile\n"
  {
    assert PrivateGetRoutes[0] + "\n" == "/auth/me\n" && PrivateGetRoutes[1] + "\n" == "/auth/profile\n";
  }

  /** Some route of a list without placeholders matches a path exactly when the path is one of them, or one of them and a newline. */
  lemma LiteralListMatch(routes: seq<string>, uri: string)
    requires forall k :: 0 <= k < |routes| ==> '{' !in routes[k]
    ensures (exists k :: 0 <= k < |routes| && Match(Compile(routes[k]), uri).Some?) <==>
      (exists k :: 0 <= k < |routes| && (uri == routes[k] || uri == routes[k] + "\n"))
  {
    forall k | 0 <= k < |routes|
      ensures Match(Compile(routes[k]), uri).Some? <==> uri == routes[k] || uri == routes[k] + "\n"
    {
      LiteralRouteMatch(routes[k], uri);
    }
  }

  /**
   * Preflight requests never reach the authentication block: the sessions
   * table is untouched and the answer is the OPTIONS route registered for
   * exactly that path, or a bare 200.
   */
  lemma OptionsNotGated(routes: map<string, Table>, req: Request, appEnv: Option<string>, key: string,
                        decode: Decoder, sessions: seq<Session>)
    requires TablesWf(routes) && req.verb == "OPTIONS"
    ensures var (out, after) := DispatchSpec(routes, req, appEnv, key, decode, sessions);
      var uri := RequestUri(req.path, appEnv);
      after == sessions &&
      (uri in TableOf(routes, "OPTIONS").vals ==> out == Handler(TableOf(routes, "OPTIONS").vals[uri], [])) &&
      (uri !in TableOf(routes, "OPTIONS").vals ==> out == Reply(Bare(200)))
  {
  }

  /**
   * PUT and DELETE always go through the gate, whatever the path, and a
   * denial answers 401 before any route lookup, so a missing route is
   * never revealed to an unauthenticated caller.
   */
  lemma MutationsGated(routes: map<string, Table>, req: Request, appEnv: Option<string>, key: string,
                       decode: Decoder, sessions: seq<Session>)
    requires TablesWf(routes) && (req.verb == "PUT" || req.verb == "DELETE")
    ensures var (g, after) := RouterGate(req.authorization, key, decode, sessions);
      g.Denied? ==> DispatchSpec(routes, req, appEnv, key, decode, sessions) == (Reply(Json(401, g.body)), after)
  {
  }

  /**
   * A request that needs authentication and carries no usable bearer token
   * is answered 401 "Missing or invalid token", and nothing else happens.
   */
  lemma NoTokenRejected(routes: map<string, Table>, req: Request, appEnv: Option<string>, key: string,
                        decode: Decoder, sessions: seq<Session>)
    requires TablesWf(routes) && req.verb != "OPTIONS"
    requires NeedsAuth(req.verb, RequestUri(req.path, appEnv)) && BearerToken(req.authorization).None?
    ensures DispatchSpec(routes, req, appEnv, key, decode, sessions) ==
      (Reply(Json(401, MessageBody("Unauthorized: Missing or invalid token"))), sessions)
  {
  }

  /**
   * On a public route the header, the key and the sessions table play no
   * part: the outcome is the first matching route, or 404.
   */
  lemma PublicIgnoresCredentials(routes: map<string, Table>, req: Request, appEnv: Option<string>, key: string,
                                 decode: Decoder, sessions: seq<Session>)
    requires TablesWf(routes) && req.verb != "OPTIONS" && !NeedsAuth(req.verb, RequestUri(req.path, appEnv))
    ensures var uri := RequestUri(req.path, appEnv);
      var (out, after) := DispatchSpec(routes, req, appEnv, key, decode, sessions);
      after == sessions &&
      match FirstMatch(TableOf(routes, req.verb), 0, uri)
      case Some(hit) => out == Handler(hit.handler, hit.args)
      case None => out == Reply(NotFound)
  {
  }

  /** Past the gate, dispatch is the route lookup alone. */
  lemma DispatchPastGate(routes: map<string, Table>, req: Request, appEnv: Option<string>, key: string,
                         decode: Decoder, sessions: seq<Session>)
    requires TablesWf(routes) && req.verb != "OPTIONS"
    requires !NeedsAuth(req.verb, RequestUri(req.path, appEnv)) ||
             RouterGate(req.authorization, key, decode, sessions).0.Through?
    ensures DispatchSpec(routes, req, appEnv, key, decode, sessions).0 ==
      match FirstMatch(TableOf(routes, req.verb), 0, RequestUri(req.path, appEnv))
      case Some(hit) => Handler(hit.handler, hit.args)
      case None => Reply(NotFound)
  {
  }

  /** Past the gate, the answer is 404 exactly when no route of the method matches. */
  lemma NotFoundIffNoRoute(routes: map<string, Table>, req: Request, appEnv: Option<string>, key: string,
                           decode: Decoder, sessions: seq<Session>)
    requires TablesWf(routes) && req.verb != "OPTIONS"
    requires !NeedsAuth(req.verb, RequestUri(req.path, appEnv)) ||
             RouterGate(req.authorization, key, decode, sessions).0.Through?
    ensures var uri := RequestUri(req.path, appEnv);
      var t := TableOf(routes, req.verb);
      DispatchSpec(routes, req, appEnv, key, decode, sessions).0 == Reply(NotFound) <==>
        forall k :: 0 <= k < |t.keys| ==> Match(Compile(t.keys[k]), uri).None?
  {
    DispatchPastGate(routes, req, appEnv, key, decode, sessions);
    var r := FirstMatch(TableOf(routes, req.verb), 0, RequestUri(req.path, appEnv));
    if r.Some? {
      assert Handler(r.value.handler, r.value.args) != Reply(NotFound);
    }
  }

  /**
   * Past the gate, the route called is the first in registration order
   * whose pattern matches, with its captured parameters.
   */
  lemma FirstRouteWins(routes: map<string, Table>, req: Request, appEnv: Option<string>, key: string,
                       decode: Decoder, sessions: seq<Session>, k: nat)
    requires TablesWf(routes) && req.verb != "OPTIONS"
    requires !NeedsAuth(req.verb, RequestUri(req.path, appEnv)) ||
             RouterGate(req.authorization, key, decode, sessions).0.Through?
    requires var uri := RequestUri(req.path, appEnv);
      var t := TableOf(routes, req.verb);
      k < |t.keys| && Match(Compile(t.keys[k]), uri).Some? &&
      forall j :: 0 <= j < k ==> Match(Compile(t.keys[j]), uri).None?
    ensures var uri := RequestUri(req.path, appEnv);
      var t := TableOf(routes, req.verb);
      DispatchSpec(routes, req, appEnv, key, decode, sessions).0 ==
        Handler(t.vals[t.keys[k]], Match(Compile(t.keys[k]), uri).value)
  {
    DispatchPastGate(routes, req, appEnv, key, decode, sessions);
    var r := FirstMatch(TableOf(routes, req.verb), 0, RequestUri(req.path, appEnv));
    assert r.Some? && r.value.index == k;
  }

  /** A route that does not match is passed over: the lookup goes on with the next one. */
  lemma FirstMatchSkip(t: Table, i: nat, uri: string)
    requires Wf(t) && i < |t.keys| && Match(Compile(t.keys[i]), uri).None?
    ensures FirstMatch(t, i, uri) == FirstMatch(t, i + 1, uri)
  {
  }

  /** A route that matches ends the lookup, with its handler and its captures. */
  lemma FirstMatchHere(t: Table, i: nat, uri: string, handler: string, caps: seq<string>)
    requires Wf(t) && i < |t.keys| && Match(Compile(t.keys[i]), uri) == Some(caps) && t.vals[t.keys[i]] == handler
    ensures FirstMatch(t, i, uri) == Some(Hit(i, handler, caps))
  {
  }

  // ---------------------------------------------------------------------------
  // Patterns with literal text and one placeholder

  /** A pattern that starts with literal text only matches subjects that start with that text. */
  lemma {:induction false} LitsPrefix(a: string, rest: seq<Seg>, s: string)
    ensures Match(Lits(a) + rest, s).Some? ==> |a| <= |s| && s[..|a|] == a
    decreases |a|
  {
    if a != [] {
      LitsStep(a, rest);
      if s != [] && s[0] == a[0] {
        LitsPrefix(a[1..], rest, s[1..]);
        assert Match(Lits(a) + rest, s) == Match(Lits(a[1..]) + rest, s[1..]);
        if Match(Lits(a) + rest, s).Some? {
          assert s[..|a|] == [s[0]] + s[1..][..|a| - 1];
          assert a == [a[0]] + a[1..];
        }
      }
    } else {
      assert s[..0] == a;
    }
  }

  /** A route whose text before the first brace is `a` only matches paths that start with `a`. */
  lemma RoutePrefix(a: string, rest: string, uri: string)
    requires '{' !in a
    ensures Match(Compile(a + rest), uri).Some? ==> |a| <= |uri| && uri[..|a|] == a
  {
    CompileLiteral(a, rest);
    LitsPrefix(a, Compile(rest), uri);
  }

  lemma {:induction false} ParamCountLits(a: string, rest: seq<Seg>)
    ensures ParamCount(Lits(a) + rest) == ParamCount(rest)
    decreases |a|
  {
    if a != [] {
      var p := Lits(a) + rest;
      assert p[0] == Lit(a[0]);
      assert p[1..] == Lits(a[1..]) + rest;
      ParamCountLits(a[1..], rest);
    } else {
      assert Lits(a) + rest == rest;
    }
  }

  lemma {:induction false} FillLits(a: string, rest: seq<Seg>, caps: seq<string>)
    requires |caps| == ParamCount(rest)
    ensures ParamCount(Lits(a) + rest) == ParamCount(rest)
    ensures Fill(Lits(a) + rest, caps) == a + Fill(rest, caps)
    decreases |a|
  {
    ParamCountLits(a, rest);
    if a != [] {
      LitsStep(a, rest);
      assert ([Lit(a[0])] + (Lits(a[1..]) + rest))[1..] == Lits(a[1..]) + rest;
      ParamCountLits(a[1..], rest);
      FillLits(a[1..], rest, caps);
      assert a == [a[0]] + a[1..];
    } else {
      assert Lits(a) + rest == rest;
    }
  }

  /** The segments of `a{name}b` when neither `a` nor `b` holds a brace. */
  lemma CompileOneParam(a: string, name: string, b: string)
    requires '{' !in a && '{' !in b && IsName(name)
    ensures Compile(a + "{" + name + "}" + b) == Lits(a) + ([Param] + Lits(b))
  {
    var ph := "{" + name + "}" + b;
    assert a + "{" + name + "}" + b == a + ph;
    CompileLiteral(a, ph);
    CompilePlaceholder(name, b);
    CompileLiteralAll(b);
  }

  /** Text without an opening brace compiles to its characters taken literally. */
  lemma CompileLiteralAll(b: string)
    requires '{' !in b
    ensures Compile(b) == Lits(b)
  {
    CompileLiteral(b, "");
    assert b + "" == b;
  }

  lemma FillOneParam(a: string, b: string, x: string)
    ensures ParamCount(Lits(a) + ([Param] + Lits(b))) == 1
    ensures Fill(Lits(a) + ([Param] + Lits(b)), [x]) == a + x + b
  {
    var q := [Param] + Lits(b);
    ParamCountLits(b, []);
    FillLits(b, [], []);
    assert Lits(b) + [] == Lits(b);
    assert q[1..] == Lits(b);
    assert ParamCount(q) == 1;
    assert [x][1..] == [];
    assert Fill(q, [x]) == x + Fill(Lits(b), []);
    FillLits(a, q, [x]);
  }

  /**
   * A route with one placeholder, `a{name}b`, matches exactly the paths
   * `a x b` (possibly followed by one newline) where `x` is a non-empty run
   * of letters, digits, `_` and `-`; the single captured parameter is such
   * an `x`.
   */
  lemma ParamRouteMatch(a: string, name: string, b: string, uri: string)
    requires '{' !in a && '{' !in b && IsName(name)
    ensures Match(Compile(a + "{" + name + "}" + b), uri).Some? <==>
      exists x :: IsCapture(x) && (uri == a + x + b || uri == a + x + b + "\n")
    ensures Match(Compile(a + "{" + name + "}" + b), uri).Some? ==>
      exists x :: IsCapture(x) && Match(Compile(a + "{" + name + "}" + b), uri) == Some([x]) &&
        (uri == a + x + b || uri == a + x + b + "\n")
  {
    CompileOneParam(a, name, b);
    var p := Lits(a) + ([Param] + Lits(b));
    MatchSound(p, uri);
    FillOneParam(a, b, "");
    if Match(p, uri).Some? {
      var caps := Match(p, uri).value;
      FillOneParam(a, b, caps[0]);
      assert caps == [caps[0]];
    }
    forall x | IsCapture(x) && (uri == a + x + b || uri == a + x + b + "\n")
      ensures Match(p, uri).Some?
    {
      FillOneParam(a, b, x);
      assert Fits(p, uri, [x]);
      MatchComplete(p, uri, [x]);
    }
  }

  /**
   * A path that differs at position `k` from a route's literal beginning (or
   * is shorter than `k + 1`) does not match it.
   */
  lemma PrefixMiss(a: string, rest: string, uri: string, k: nat)
    requires '{' !in a && k < |a| && (k < |uri| ==> uri[k] != a[k])
    ensures Match(Compile(a + rest), uri).None?
  {
    RoutePrefix(a, rest, uri);
    assert |a| <= |uri| ==> uri[..|a|][k] == uri[k];
  }

  /** A path without the literal end of a one-placeholder route does not match it. */
  lemma ParamRouteMissSuffix(a: string, name: string, b: string, uri: string)
    requires '{' !in a && '{' !in b && IsName(name)
    requires !(|b| <= |uri| && uri[|uri| - |b|..] == b)
    requires !(|b| + 1 <= |uri| && uri[|uri| - |b| - 1..] == b + "\n")
    ensures Match(Compile(a + "{" + name + "}" + b), uri).None?
  {
    forall x | IsCapture(x) ensures uri != a + x + b && uri != a + x + b + "\n" {
      NotEndingIn(a + x, b, uri);
      NotEndingInLine(a + x, b, uri);
    }
    ParamRouteMatch(a, name, b, uri);
  }

  /** A path that does not end in `b` is not `c + b`. */
  lemma NotEndingIn(c: string, b: string, uri: string)
    requires !(|b| <= |uri| && uri[|uri| - |b|..] == b)
    ensures uri != c + b
  {
    EndsWith(c, b);
  }

  /** A path that does not end in `b` and a newline is not `c + b + "\n"`. */
  lemma NotEndingInLine(c: string, b: string, uri: string)
    requires !(|b| + 1 <= |uri| && uri[|uri| - |b| - 1..] == b + "\n")
    ensures uri != c + b + "\n"
  {
    EndsWith(c, b + "\n");
    assert c + b + "\n" == c + (b + "\n");
  }

  /**
   * A path whose last character is neither the last of the route's literal
   * end nor a newline does not match a one-placeholder route.
   */
  lemma ParamRouteMissLast(a: string, name: string, b: string, uri: string)
    requires '{' !in a && '{' !in b && IsName(name) && |b| >= 1
    requires |uri| >= 1 && uri[|uri| - 1] != b[|b| - 1] && uri[|uri| - 1] != '\n'
    ensures Match(Compile(a + "{" + name + "}" + b), uri).None?
  {
    assert |b| <= |uri| ==> uri[|uri| - |b|..][|b| - 1] == uri[|uri| - 1];
    assert |b| + 1 <= |uri| ==> uri[|uri| - |b| - 1..][|b|] == uri[|uri| - 1];
    ParamRouteMissSuffix(a, name, b, uri);
  }

  lemma EndsWith(a: string, b: string)
    ensures (a + b)[|a + b| - |b|..] == b
  {
  }

  /**
   * A path `a x b` matches the route `a{name}b` with the parameter `x`, when
   * `b` is empty or starts with a character the group cannot take.
   */
  lemma ParamRouteHit(a: string, name: string, b: string, x: string)
    requires '{' !in a && '{' !in b && IsName(name) && IsCapture(x)
    requires b == [] || !IsCapChar(b[0])
    ensures Match(Compile(a + "{" + name + "}" + b), a + x + b) == Some([x])
  {
    var uri := a + x + b;
    ParamRouteMatch(a, name, b, uri);
    var y :| IsCapture(y) && Match(Compile(a + "{" + name + "}" + b), uri) == Some([y]) &&
      (uri == a + y + b || uri == a + y + b + "\n");
    NoNewlineReading(a, x, y, b);
    CaptureUnique(a, x, y, b);
  }

  /**
   * A route `a{name}` registered before the literal route `a x`, where `x`
   * is a possible parameter, matches every path the later one matches, so
   * the later one is never reached.
   */
  lemma ParamCoversLiteral(a: string, x: string, name: string, uri: string)
    requires '{' !in a && IsName(name) && IsCapture(x)
    ensures Match(Compile(a + x), uri).Some? ==> Match(Compile(a + "{" + name + "}"), uri).Some?
  {
    assert '{' !in a + x by {
      assert forall k :: 0 <= k < |x| ==> (a + x)[|a| + k] == x[k];
    }
    LiteralRouteMatch(a + x, uri);
    assert a + "{" + name + "}" + "" == a + "{" + name + "}" && a + x + "" == a + x;
    ParamRouteMatch(a, name, "", uri);
  }

  /** In a table where `a{name}` comes before `a x`, no path reaches `a x`. */
  lemma ShadowedRoute(t: Table, i: nat, j: nat, a: string, x: string, name: string, uri: string)
    requires Wf(t) && i < j < |t.keys| && t.keys[i] == a + "{" + name + "}" && t.keys[j] == a + x
    requires '{' !in a && IsName(name) && IsCapture(x)
    ensures FirstMatch(t, 0, uri).Some? ==> FirstMatch(t, 0, uri).value.index != j
  {
    ParamCoversLiteral(a, x, name, uri);
  }

  /** The group stops exactly at the end of `x` when what follows cannot continue it. */
  lemma {:induction false} CapRunPrefix(x: string, rest: string)
    requires forall k :: 0 <= k < |x| ==> IsCapChar(x[k])
    requires rest == [] || !IsCapChar(rest[0])
    ensures CapRun(x + rest) == |x|
    decreases |x|
  {
    if x == [] {
      assert x + rest == rest;
    } else {
      assert (x + rest)[1..] == x[1..] + rest;
      CapRunPrefix(x[1..], rest);
    }
  }

  /** With `b` starting outside the group's characters, `a x b` determines `x`. */
  lemma CaptureUnique(a: string, x: string, y: string, b: string)
    requires IsCapture(x) && IsCapture(y) && (b == [] || !IsCapChar(b[0]))
    requires a + x + b == a + y + b
    ensures x == y
  {
    var u := a + x + b;
    assert u[|a|..] == x + b;
    assert u[|a|..] == y + b;
    CapRunPrefix(x, b);
    CapRunPrefix(y, b);
    assert x == (x + b)[..|x|] && y == (y + b)[..|y|];
  }

  /** Nor can `a x b` be read as `a y b` followed by a newline. */
  lemma NoNewlineReading(a: string, x: string, y: string, b: string)
    requires IsCapture(x) && IsCapture(y) && (b == [] || !IsCapChar(b[0]))
    ensures a + x + b != a + y + b + "\n"
  {
    var l, r := a + x + b, a + y + b + "\n";
    if |l| == |r| {
      assert l[|a|..] == x + b;
      assert r[|a|..] == y + (b + "\n");
      CapRunPrefix(x, b);
      assert (b + "\n")[0] == if b == [] then '\n' else b[0];
      CapRunPrefix(y, b + "\n");
    }
  }
}
