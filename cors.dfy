/**
 * The CORS headers of a response (src/Core/Cors.php, initCors) and the
 * settings the bootstrap (public/index.php) passes to it from the `cors`
 * configuration section. The `header()` calls are modelled as the list of
 * headers emitted, in order.
 */
module Cors {
  import opened Strings
  import opened Php

  /** The settings initCors reads. */
  datatype CorsObject = CorsObject(origin: string, methods: string, allowHeaders: string, exposeHeaders: string, credentials: Value)

  /** `array_map('trim', explode(',', $origin))`. */
  function AllowedOrigins(origin: string): seq<string> {
    var parts := Split(origin, ',');
    seq(|parts|, i requires 0 <= i < |parts| => Trim(parts[i]))
  }

  /** `$_SERVER['HTTP_ORIGIN'] ?? ''`. */
  function RequestOrigin(header: Option<string>): string {
    if header.Some? then header.value else ""
  }

  /** A `header("Name: value")` call. */
  datatype Header = Header(name: string, value: string)

  /** The text of the header line. */
  function Line(h: Header): string { h.name + ": " + h.value }

  const AllowOrigin := "Access-Control-Allow-Origin"
  const AllowMethods := "Access-Control-Allow-Methods"
  const AllowHeaders := "Access-Control-Allow-Headers"
  const ExposeHeaders := "Access-Control-Expose-Headers"
  const AllowCredentials := "Access-Control-Allow-Credentials"

  /** initCors: the headers, in the order they are emitted. */
  function InitCors(c: CorsObject, header: Option<string>): seq<Header> {
    var origin := RequestOrigin(header);
    (if origin in AllowedOrigins(c.origin) then [Header(AllowOrigin, origin)] else []) + FixedHeaders(c)
  }

  /** The four headers initCors always emits, in order. */
  function FixedHeaders(c: CorsObject): seq<Header> {
    [Header(AllowMethods, c.methods), Header(AllowHeaders, c.allowHeaders), Header(ExposeHeaders, c.exposeHeaders),
     Header(AllowCredentials, if Truthy(c.credentials) then "true" else "false")]
  }

  /** None of the four fixed headers is an allow-origin header. */
  lemma FixedNotAllowOrigin(c: CorsObject)
    ensures forall i :: 0 <= i < 4 ==> FixedHeaders(c)[i].name != AllowOrigin
  {
    assert AllowOrigin[21] == 'O' && AllowOrigin[15] == 'A';
    assert AllowMethods[21] == 'M';
    assert AllowHeaders[21] == 'H';
    assert ExposeHeaders[15] == 'E';
    assert AllowCredentials[21] == 'C';
  }

  /**
   * The allow-origin line is emitted exactly when the request origin (empty
   * when the request sends none) equals one of the trimmed comma-separated
   * configured entries, and then it is the first line and echoes that origin.
   */
  lemma AllowOriginSpec(c: CorsObject, header: Option<string>)
    ensures var origin := RequestOrigin(header);
      var allowed := exists i :: 0 <= i < |Split(c.origin, ',')| && Trim(Split(c.origin, ',')[i]) == origin;
      && ((exists i :: 0 <= i < |InitCors(c, header)| && InitCors(c, header)[i].name == AllowOrigin) <==> allowed)
      && (allowed ==> InitCors(c, header)[0] == Header(AllowOrigin, origin))
  {
    ListedIff(RequestOrigin(header), c.origin);
    AllowOriginEmitted(c, header);
  }

  /** The allow-origin header is present exactly when the request origin is among the allowed ones. */
  lemma AllowOriginEmitted(c: CorsObject, header: Option<string>)
    ensures (exists i :: 0 <= i < |InitCors(c, header)| && InitCors(c, header)[i].name == AllowOrigin) <==>
      RequestOrigin(header) in AllowedOrigins(c.origin)
    ensures RequestOrigin(header) in AllowedOrigins(c.origin) ==> InitCors(c, header)[0] == Header(AllowOrigin, RequestOrigin(header))
  {
    var origin := RequestOrigin(header);
    FixedNotAllowOrigin(c);
    if origin in AllowedOrigins(c.origin) {
      FirstDecides([Header(AllowOrigin, origin)], FixedHeaders(c));
      assert InitCors(c, header)[0].name == AllowOrigin;
    } else {
      assert InitCors(c, header) == FixedHeaders(c);
    }
  }

  /** The entries, one per comma-separated piece, each trimmed. */
  lemma AllowedEntries(cfg: string)
    ensures |AllowedOrigins(cfg)| == |Split(cfg, ',')|
    ensures forall i :: 0 <= i < |Split(cfg, ',')| ==> AllowedOrigins(cfg)[i] == Trim(Split(cfg, ',')[i])
  {
  }

  /** Membership among the trimmed entries, spelled out. */
  lemma ListedIff(origin: string, cfg: string)
    ensures origin in AllowedOrigins(cfg) <==> exists i :: 0 <= i < |Split(cfg, ',')| && Trim(Split(cfg, ',')[i]) == origin
  {
    AllowedEntries(cfg);
    TrimmedMember(AllowedOrigins(cfg), Split(cfg, ','), origin);
  }

  /** A list of trimmed pieces holds a text exactly when some piece trims to it. */
  lemma TrimmedMember(a: seq<string>, parts: seq<string>, x: string)
    requires |a| == |parts| && forall i :: 0 <= i < |parts| ==> a[i] == Trim(parts[i])
    ensures x in a <==> exists i :: 0 <= i < |parts| && Trim(parts[i]) == x
  {
    if x in a {
      var i :| 0 <= i < |a| && a[i] == x;
      assert Trim(parts[i]) == x;
    }
  }

  /** When none of the later headers is an allow-origin header, one is present exactly when the front holds one. */
  lemma FirstDecides(front: seq<Header>, rest: seq<Header>)
    requires forall i :: 0 <= i < |rest| ==> rest[i].name != AllowOrigin
    ensures (exists i :: 0 <= i < |front + rest| && (front + rest)[i].name == AllowOrigin) <==>
      (exists i :: 0 <= i < |front| && front[i].name == AllowOrigin)
  {
    if exists i :: 0 <= i < |front + rest| && (front + rest)[i].name == AllowOrigin {
      var i :| 0 <= i < |front + rest| && (front + rest)[i].name == AllowOrigin;
    }
    if exists i :: 0 <= i < |front| && front[i].name == AllowOrigin {
      var i :| 0 <= i < |front| && front[i].name == AllowOrigin;
      assert (front + rest)[i] == front[i];
    }
  }

  /**
   * The methods, allow-headers, expose-headers and credentials lines are
   * always emitted, last and in that order; the credentials line says `true`
   * exactly when the flag is truthy.
   */
  lemma FixedLinesSpec(c: CorsObject, header: Option<string>)
    ensures |InitCors(c, header)| >= 4
    ensures InitCors(c, header)[|InitCors(c, header)| - 4..] == FixedHeaders(c)
    ensures FixedHeaders(c)[3].value == if Truthy(c.credentials) then "true" else "false"
  {
    if RequestOrigin(header) in AllowedOrigins(c.origin) {
      assert InitCors(c, header)[1..] == FixedHeaders(c);
    } else {
      assert InitCors(c, header) == FixedHeaders(c);
    }
  }

  // ---------------------------------------------------------------------------
  // public/index.php: the settings passed to initCors

  /** `is_array($v) ? $v[0] : $v`, with a missing element reading as null. */
  function FirstOrSelf(v: Value): Value {
    match v
    case VArr(a) => if "0" in a.vals then a.vals["0"] else VNull
    case _ => v
  }

  /**
   * `implode(", ", $list)` of a list of scalars; None when it is not an
   * array. PHP 8 writes a nested array as "Array" with a warning; the model
   * answers None for it instead, a case the configuration's explode lists
   * never produce.
   */
  function Implode(v: Value): Option<string> {
    match v
    case VArr(a) => ImplodeValues(Elements(a))
    case _ => None
  }

  /** The values of an array in key order (foreach order). */
  function Elements(a: PhpArray): (r: seq<Value>)
    ensures |r| == |a.keys|
  {
    seq(|a.keys|, i requires 0 <= i < |a.keys| => if a.keys[i] in a.vals then a.vals[a.keys[i]] else VNull)
  }

  function ImplodeValues(vs: seq<Value>): (r: Option<string>)
    ensures r.Some? <==> forall i :: 0 <= i < |vs| ==> !vs[i].VArr?
  {
    if vs == [] then Some("")
    else if |vs| == 1 then TextOf(vs[0])
    else
      var h := TextOf(vs[0]);
      var t := ImplodeValues(vs[1..]);
      assert forall j :: 1 <= j < |vs| ==> vs[1..][j - 1] == vs[j];
      if h.Some? && t.Some? then Some(h.value + ", " + t.value) else None
  }

  /** A list of strings implodes to their join. */
  lemma {:induction false} ImplodeStrings(items: seq<string>)
    ensures ImplodeValues(seq(|items|, i requires 0 <= i < |items| => VStr(items[i]))) == Some(Join(", ", items))
    decreases |items|
  {
    var vs := seq(|items|, i requires 0 <= i < |items| => VStr(items[i]));
    if |items| > 1 {
      ImplodeStrings(items[1..]);
      assert vs[1..] == seq(|items[1..]|, i requires 0 <= i < |items[1..]| => VStr(items[1..][i]));
    }
  }

  /**
   * The settings the bootstrap builds from the `cors` section: the first
   * configured origin, the method and header lists joined with ", ", and the
   * credentials flag; None when an entry cannot be turned into a string.
   */
  function CorsSettings(section: PhpArray): Option<CorsObject> {
    var origin := TextOf(FirstOrSelf(Coalesce(section, "allowed_origins", VNull)));
    var methods := Implode(Coalesce(section, "allowed_methods", VNull));
    var allow := Implode(Coalesce(section, "allowed_headers", VNull));
    var expose := Implode(Coalesce(section, "exposed_headers", VNull));
    if origin.Some? && methods.Some? && allow.Some? && expose.Some? then
      Some(CorsObject(origin.value, methods.value, allow.value, expose.value, Coalesce(section, "credentials", VNull)))
    else None
  }

  /**
   * Only the first configured origin is ever echoed: with a list of origins
   * whose first entry holds no comma, the allow-origin line is emitted
   * exactly when the request origin is that entry, trimmed.
   */
  lemma OnlyFirstOrigin(section: PhpArray, origins: seq<string>, header: Option<string>)
    requires |origins| >= 1 && ',' !in origins[0]
    requires Get(section, "allowed_origins") == Some(StringList(origins))
    requires CorsSettings(section).Some?
    ensures AllowedOrigins(CorsSettings(section).value.origin) == [Trim(origins[0])]
    ensures (exists i :: 0 <= i < |InitCors(CorsSettings(section).value, header)| &&
                         InitCors(CorsSettings(section).value, header)[i].name == AllowOrigin) <==>
      RequestOrigin(header) == Trim(origins[0])
  {
    FirstOriginSetting(section, origins);
    SingleOrigin(CorsSettings(section).value, header);
  }

  /** The origin setting is the first configured origin. */
  lemma FirstOriginSetting(section: PhpArray, origins: seq<string>)
    requires |origins| >= 1
    requires Get(section, "allowed_origins") == Some(StringList(origins))
    requires CorsSettings(section).Some?
    ensures CorsSettings(section).value.origin == origins[0]
  {
    var items := seq(|origins|, i requires 0 <= i < |origins| => VStr(origins[i]));
    ListOfSpec(items);
    assert Get(ListOf(items), NatToString(0)) == Some(items[0]);
    assert NatToString(0) == "0";
  }

  /** With an origin setting without commas, only that setting, trimmed, is echoed. */
  lemma SingleOrigin(c: CorsObject, header: Option<string>)
    requires ',' !in c.origin
    ensures AllowedOrigins(c.origin) == [Trim(c.origin)]
    ensures (exists i :: 0 <= i < |InitCors(c, header)| && InitCors(c, header)[i].name == AllowOrigin) <==>
      RequestOrigin(header) == Trim(c.origin)
  {
    SplitNoSep(c.origin, ',');
    AllowedEntries(c.origin);
    AllowOriginEmitted(c, header);
  }

  /** A configured list of strings passes its join as the methods setting. */
  lemma MethodsJoined(section: PhpArray, methods: seq<string>)
    requires Get(section, "allowed_methods") == Some(StringList(methods))
    ensures Implode(Coalesce(section, "allowed_methods", VNull)) == Some(Join(", ", methods))
  {
    var items := seq(|methods|, i requires 0 <= i < |methods| => VStr(methods[i]));
    ListOfSpec(items);
    var l := ListOf(items);
    forall i | 0 <= i < |items| ensures Elements(l)[i] == items[i] {
      assert Get(l, NatToString(i)) == Some(items[i]);
    }
    assert Elements(l) == items;
    ImplodeStrings(methods);
  }
}
