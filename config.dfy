/**
 * The central configuration store (src/Core/Config.php).
 *
 * The store holds one nested PHP array. A key is either a plain key, looked
 * up with `??` in the top-level array, or a dotted path `a.b.c` whose
 * segments are walked one array at a time. `set` on a dotted path creates
 * (or replaces by) empty arrays along the way and writes the value at the
 * end of the path.
 *
 * The environment (`$_ENV`) is a map from variable names to strings.
 */
module Config {
  import opened Strings
  import opened Php

  type Env = map<string, string>

  // ---------------------------------------------------------------------------
  // Reading a path

  /**
   * The value stored at `path` below `v`: every step must go through an
   * array that has the next segment as a key. A null stored at the end is
   * a value like any other.
   */
  function Reach(v: Value, path: seq<string>): Option<Value>
    decreases |path|
  {
    if path == [] then Some(v)
    else match v
      case VArr(a) => if path[0] in a.vals then Reach(a.vals[path[0]], path[1..]) else None
      case _ => None
  }

  /** The `foreach ($keys as $k)` walk of getNestedValue, returning `d` at the first failing step. */
  function Walk(v: Value, keys: seq<string>, d: Value): Value
    decreases |keys|
  {
    if keys == [] then v
    else if !v.VArr? || keys[0] !in v.a.vals then d
    else Walk(v.a.vals[keys[0]], keys[1..], d)
  }

  /** The walk returns the value at the path when there is one, and the default otherwise. */
  lemma {:induction false} WalkReach(v: Value, keys: seq<string>, d: Value)
    ensures Reach(v, keys).Some? ==> Walk(v, keys, d) == Reach(v, keys).value
    ensures Reach(v, keys).None? ==> Walk(v, keys, d) == d
    decreases |keys|
  {
    if keys != [] && v.VArr? && keys[0] in v.a.vals {
      WalkReach(v.a.vals[keys[0]], keys[1..], d);
    }
  }

  /** getNestedValue: a plain key goes through `??`, a dotted key through the walk. */
  function GetNested(a: PhpArray, key: string, d: Value): Value {
    if '.' !in key then Coalesce(a, key, d)
    else Walk(VArr(a), Split(key, '.'), d)
  }

  /** The segments a key addresses: the pieces of a dotted key, or the key itself. */
  function Segments(key: string): (p: seq<string>)
    ensures |p| >= 1
    ensures '.' !in key ==> p == [key]
  {
    if '.' in key then Split(key, '.') else [key]
  }

  /**
   * What `get` returns, stated through `Reach`: a plain key gives its value
   * unless it is missing or null, and then the default; a dotted key gives
   * the value at its path, null included, and the default when the path
   * does not exist.
   */
  lemma GetSpec(a: PhpArray, key: string, d: Value)
    ensures '.' !in key ==>
      GetNested(a, key, d) == (if Reach(VArr(a), [key]).Some? && Reach(VArr(a), [key]).value != VNull
                               then Reach(VArr(a), [key]).value else d)
    ensures '.' in key && Reach(VArr(a), Segments(key)).Some? ==>
      GetNested(a, key, d) == Reach(VArr(a), Segments(key)).value
    ensures '.' in key && Reach(VArr(a), Segments(key)).None? ==> GetNested(a, key, d) == d
  {
    WalkReach(VArr(a), Split(key, '.'), d);
    assert [key][1..] == [];
  }

  // ---------------------------------------------------------------------------
  // Writing a path

  /** The array below `k`, or a fresh empty one when `k` is missing or holds a non-array. */
  function ChildArray(a: PhpArray, k: string): (c: PhpArray)
    ensures k in a.vals && a.vals[k].VArr? ==> c == a.vals[k].a
    ensures !(k in a.vals && a.vals[k].VArr?) ==> c == EmptyMap()
  {
    if k in a.vals && a.vals[k].VArr? then a.vals[k].a else EmptyMap()
  }

  /** The array `a` after `v` is written at `path` below it. */
  function Store(a: PhpArray, path: seq<string>, v: Value): PhpArray
    requires |path| >= 1
    decreases |path|
  {
    if |path| == 1 then Put(a, path[0], v)
    else Put(a, path[0], VArr(Store(ChildArray(a, path[0]), path[1..], v)))
  }

  /** setNestedValue as a value: a plain key is assigned, a dotted key is stored along its segments. */
  function SetNested(a: PhpArray, key: string, v: Value): PhpArray {
    if '.' !in key then Put(a, key, v) else Store(a, Split(key, '.'), v)
  }

  /** After a store, the path leads to the stored value. */
  lemma {:induction false} StoreReach(a: PhpArray, path: seq<string>, v: Value)
    requires |path| >= 1
    ensures Reach(VArr(Store(a, path, v)), path) == Some(v)
    decreases |path|
  {
    if |path| > 1 {
      StoreReach(ChildArray(a, path[0]), path[1..], v);
    }
  }

  /** Every proper prefix of the stored path leads to an array afterwards. */
  lemma {:induction false} StoreMakesArrays(a: PhpArray, path: seq<string>, v: Value, i: nat)
    requires 1 <= i < |path|
    ensures Reach(VArr(Store(a, path, v)), path[..i]).Some?
    ensures Reach(VArr(Store(a, path, v)), path[..i]).value.VArr?
    decreases |path|
  {
    var s := Store(ChildArray(a, path[0]), path[1..], v);
    assert Store(a, path, v).vals[path[0]] == VArr(s);
    if i == 1 {
      assert path[..1][1..] == [];
    } else {
      StoreMakesArrays(ChildArray(a, path[0]), path[1..], v, i - 1);
      assert path[..i][1..] == path[1..][..i - 1];
    }
  }

  /** `p` and `q` agree on a common prefix and then differ: neither addresses a part of the other. */
  predicate Diverge(p: seq<string>, q: seq<string>) {
    exists i :: 0 <= i < |p| && i < |q| && p[..i] == q[..i] && p[i] != q[i]
  }

  /** Replacing one key of an array leaves every path through another first key as it was. */
  lemma PutFrame(a: PhpArray, k: string, x: Value, q: seq<string>)
    requires |q| >= 1 && q[0] != k
    ensures Reach(VArr(Put(a, k, x)), q) == Reach(VArr(a), q)
  {
  }

  /** No path of length one or more leads anywhere below the empty array. */
  lemma EmptyReach(q: seq<string>)
    requires |q| >= 1
    ensures Reach(VArr(EmptyMap()), q).None?
  {
  }

  /** A store changes nothing reachable along a path that diverges from the stored one. */
  lemma {:induction false} StoreFrame(a: PhpArray, path: seq<string>, v: Value, q: seq<string>, i: nat)
    requires i < |path| && i < |q| && path[..i] == q[..i] && path[i] != q[i]
    ensures Reach(VArr(Store(a, path, v)), q) == Reach(VArr(a), q)
    decreases |path|
  {
    var k := path[0];
    if i == 0 {
      if |path| == 1 {
        PutFrame(a, k, v, q);
      } else {
        PutFrame(a, k, VArr(Store(ChildArray(a, k), path[1..], v)), q);
      }
    } else {
      assert q[0] == path[..i][0];
      var c := ChildArray(a, k);
      var s := Store(c, path[1..], v);
      assert Store(a, path, v).vals[k] == VArr(s);
      assert path[1..][..i - 1] == path[..i][1..] && q[1..][..i - 1] == q[..i][1..];
      StoreFrame(c, path[1..], v, q[1..], i - 1);
      if !(k in a.vals && a.vals[k].VArr?) {
        EmptyReach(q[1..]);
      }
    }
  }

  /** `get` after `set` on the same key: the value, except that a null set under a plain key reads as the default. */
  lemma SetThenGet(a: PhpArray, key: string, v: Value, d: Value)
    ensures GetNested(SetNested(a, key, v), key, d) == (if '.' !in key && v == VNull then d else v)
  {
    if '.' !in key {
      PutGet(a, key, v);
    } else {
      StoreReach(a, Split(key, '.'), v);
      WalkReach(VArr(SetNested(a, key, v)), Split(key, '.'), d);
    }
  }

  /** `set` on a dotted key leaves an array at every proper prefix of the key's path. */
  lemma SetMakesArrays(a: PhpArray, key: string, v: Value, i: nat)
    requires '.' in key && 1 <= i < |Segments(key)|
    ensures Reach(VArr(SetNested(a, key, v)), Segments(key)[..i]).Some?
    ensures Reach(VArr(SetNested(a, key, v)), Segments(key)[..i]).value.VArr?
  {
    StoreMakesArrays(a, Split(key, '.'), v, i);
  }

  /** `set` changes no value reachable along a path that diverges from the key's path. */
  lemma SetFrame(a: PhpArray, key: string, v: Value, q: seq<string>)
    requires Diverge(Segments(key), q)
    ensures Reach(VArr(SetNested(a, key, v)), q) == Reach(VArr(a), q)
  {
    var i :| 0 <= i < |Segments(key)| && i < |q| && Segments(key)[..i] == q[..i] && Segments(key)[i] != q[i];
    if '.' !in key {
      PutFrame(a, key, v, q);
    } else {
      StoreFrame(a, Split(key, '.'), v, q, i);
    }
  }

  /** In particular, `get` of a key whose path diverges from the one set returns what it did before. */
  lemma SetFrameGet(a: PhpArray, key: string, v: Value, key': string, d: Value)
    requires Diverge(Segments(key), Segments(key'))
    ensures GetNested(SetNested(a, key, v), key', d) == GetNested(a, key', d)
  {
    SetFrame(a, key, v, Segments(key'));
    GetSpec(a, key', d);
    GetSpec(SetNested(a, key, v), key', d);
  }

  /** A store keeps every array well formed. */
  lemma {:induction false} StoreWf(a: PhpArray, path: seq<string>, v: Value)
    requires |path| >= 1 && DeepWf(VArr(a)) && DeepWf(v)
    ensures DeepWf(VArr(Store(a, path, v)))
    decreases |path|
  {
    if |path| == 1 {
      PutOrder(a, path[0], v);
    } else {
      var c := ChildArray(a, path[0]);
      StoreWf(c, path[1..], v);
      PutOrder(a, path[0], VArr(Store(c, path[1..], v)));
    }
  }

  // ---------------------------------------------------------------------------
  // The configuration loaded from the environment

  /** `$_ENV[name] ?? d` (environment values are strings, never null). */
  function EnvOr(env: Env, name: string, d: Value): Value {
    if name in env then VStr(env[name]) else d
  }

  /** `(int)($_ENV[name] ?? d)`. */
  function EnvInt(env: Env, name: string, d: int): (v: Value)
    ensures v.VInt?
    ensures name !in env ==> v == VInt(d)
  {
    if name in env then VInt(LeadingInt(env[name])) else VInt(d)
  }

  /** `filter_var($_ENV[name] ?? d, FILTER_VALIDATE_BOOLEAN)`: "1", "true", "on" and "yes", in any case, are true. */
  function EnvBool(env: Env, name: string, d: bool): (v: Value)
    ensures v.VBool?
    ensures name !in env ==> v == VBool(d)
  {
    if name in env then VBool(Lower(Trim(env[name])) in ["1", "true", "on", "yes"]) else VBool(d)
  }

  /**
   * `explode(',', $_ENV[name] ?? d)`, with the default string `d` written as
   * its comma-separated pieces (EnvListDefault shows this is the same).
   */
  function EnvList(env: Env, name: string, d: seq<string>): Value {
    if name in env then StringList(Split(env[name], ',')) else StringList(d)
  }

  /** Without the variable, the list is the default string exploded at its commas. */
  lemma EnvListDefault(env: Env, name: string, d: seq<string>)
    requires name !in env && |d| >= 1 && forall i :: 0 <= i < |d| ==> ',' !in d[i]
    ensures EnvList(env, name, d) == StringList(Split(Join([','], d), ','))
  {
    SplitJoin(d, ',');
  }

  function AppSection(env: Env): PhpArray {
    Obj(["name", "version", "env", "debug", "url", "timezone"],
        [EnvOr(env, "APP_NAME", VStr("Generic API")),
         EnvOr(env, "APP_VERSION", VStr("1.0.0")),
         EnvOr(env, "APP_ENV", VStr("development")),
         EnvBool(env, "APP_DEBUG", false),
         EnvOr(env, "APP_URL", VStr("http://localhost:8000")),
         EnvOr(env, "APP_TIMEZONE", VStr("UTC"))])
  }

  /** The PDO options, under PDO's integer constants: ERRMODE (3) => EXCEPTION (2), DEFAULT_FETCH_MODE (19) => ASSOC (2), EMULATE_PREPARES (20) => false. */
  function PdoOptions(): PhpArray {
    Obj(["3", "19", "20"], [VInt(2), VInt(2), VBool(false)])
  }

  function DatabaseSection(env: Env): PhpArray {
    Obj(["connection", "host", "port", "name", "user", "password", "charset", "options"],
        [EnvOr(env, "DB_CONNECTION", VStr("mysql")),
         EnvOr(env, "DB_HOST", VStr("127.0.0.1")),
         EnvOr(env, "DB_PORT", VInt(3306)),
         EnvOr(env, "DB_NAME", VStr("generic_api_db")),
         EnvOr(env, "DB_USER", VStr("root")),
         EnvOr(env, "DB_PASS", VStr("")),
         EnvOr(env, "DB_CHARSET", VStr("utf8mb4")),
         VArr(PdoOptions())])
  }

  const JwtKeys: seq<string> := ["secret", "algorithm", "expires_in", "issuer", "audience"]

  function JwtSection(env: Env): PhpArray {
    JwtKeysDistinct();
    Obj(JwtKeys, JwtValues(env))
  }

  lemma JwtKeysDistinct()
    ensures Distinct(JwtKeys)
  {
  }

  function JwtValues(env: Env): (s: seq<Value>)
    ensures |s| == |JwtKeys|
  {
        [EnvOr(env, "JWT_SECRET", VStr("default_secret_change_this")),
         EnvOr(env, "JWT_ALGORITHM", VStr("HS256")),
         EnvInt(env, "JWT_EXPIRES_IN", 86400),
         EnvOr(env, "JWT_ISSUER", VStr("generic-api")),
         EnvOr(env, "JWT_AUDIENCE", VStr("generic-api-users"))]
  }

  function MailSection(env: Env): PhpArray {
    Obj(["mailer", "host", "port", "username", "password", "encryption", "from_address", "from_name", "force_to"],
        [EnvOr(env, "MAIL_MAILER", VStr("smtp")),
         EnvOr(env, "MAIL_HOST", VStr("smtp.gmail.com")),
         EnvInt(env, "MAIL_PORT", 465),
         EnvOr(env, "MAIL_USERNAME", VStr("")),
         EnvOr(env, "MAIL_PASSWORD", VStr("")),
         EnvOr(env, "MAIL_ENCRYPTION", VStr("ssl")),
         EnvOr(env, "MAIL_FROM_ADDRESS", VStr("noreply@example.com")),
         EnvOr(env, "MAIL_FROM_NAME", VStr("Generic API")),
         EnvOr(env, "FORCE_MAIL_TO", VNull)])
  }

  /** The allowed origins fall back from CORS_ALLOWED_ORIGINS to CROSS_ORIGIN_ACCEPTED_URL to the local front end. */
  function CorsSection(env: Env): PhpArray {
    var origins :=
      if "CORS_ALLOWED_ORIGINS" in env then StringList(Split(env["CORS_ALLOWED_ORIGINS"], ','))
      else EnvList(env, "CROSS_ORIGIN_ACCEPTED_URL", ["http://localhost:3000"]);
    Obj(["allowed_origins", "allowed_methods", "allowed_headers", "exposed_headers", "max_age", "credentials"],
        [origins,
         EnvList(env, "CORS_ALLOWED_METHODS", ["GET", "POST", "PUT", "DELETE", "OPTIONS"]),
         EnvList(env, "CORS_ALLOWED_HEADERS", ["Content-Type", "Authorization", "X-Requested-With"]),
         EnvList(env, "CORS_EXPOSED_HEADERS", [""]),
         EnvInt(env, "CORS_MAX_AGE", 3600),
         EnvBool(env, "CORS_CREDENTIALS", false)])
  }

  function StorageSection(env: Env): PhpArray {
    Obj(["driver", "upload_path", "max_file_size", "allowed_extensions"],
        [EnvOr(env, "STORAGE_DRIVER", VStr("local")),
         EnvOr(env, "UPLOAD_PATH", VStr("uploads/")),
         EnvInt(env, "UPLOAD_MAX_SIZE", 10485760),
         EnvList(env, "ALLOWED_EXTENSIONS", ["jpg", "jpeg", "png", "gif", "pdf", "doc", "docx"])])
  }

  function CacheSection(env: Env): PhpArray {
    Obj(["driver", "ttl", "path"],
        [EnvOr(env, "CACHE_DRIVER", VStr("file")),
         EnvInt(env, "CACHE_TTL", 3600),
         EnvOr(env, "CACHE_PATH", VStr("cache/"))])
  }

  function RateLimitSection(env: Env): PhpArray {
    Obj(["enabled", "max_requests", "window_minutes"],
        [EnvBool(env, "RATE_LIMIT_ENABLED", true),
         EnvInt(env, "RATE_LIMIT_MAX_REQUESTS", 100),
         EnvInt(env, "RATE_LIMIT_WINDOW_MINUTES", 60)])
  }

  function LoggingSection(env: Env): PhpArray {
    Obj(["level", "channel", "path"],
        [EnvOr(env, "LOG_LEVEL", VStr("debug")),
         EnvOr(env, "LOG_CHANNEL", VStr("file")),
         EnvOr(env, "LOG_PATH", VStr("logs/"))])
  }

  function ExternalApisSection(env: Env): PhpArray {
    Obj(["stripe", "paypal"],
        [VArr(Obj(["key", "secret"],
                  [EnvOr(env, "STRIPE_KEY", VStr("")), EnvOr(env, "STRIPE_SECRET", VStr(""))])),
         VArr(Obj(["client_id", "client_secret", "mode"],
                  [EnvOr(env, "PAYPAL_CLIENT_ID", VStr("")),
                   EnvOr(env, "PAYPAL_CLIENT_SECRET", VStr("")),
                   EnvOr(env, "PAYPAL_MODE", VStr("sandbox"))]))])
  }

  const SectionKeys: seq<string> :=
    ["app", "database", "jwt", "mail", "cors", "storage", "cache", "rate_limit", "logging", "external_apis"]

  /** loadConfig: the sections, in their order. */
  function LoadConfig(env: Env): PhpArray {
    SectionKeysDistinct();
    Obj(SectionKeys, Sections(env))
  }

  lemma SectionKeysDistinct()
    ensures Distinct(SectionKeys)
  {
  }

  /** The section at position `i` of loadConfig's array. */
  function Section(env: Env, i: nat): Value {
    if i == 0 then VArr(AppSection(env))
    else if i == 1 then VArr(DatabaseSection(env))
    else if i == 2 then VArr(JwtSection(env))
    else if i == 3 then VArr(MailSection(env))
    else if i == 4 then VArr(CorsSection(env))
    else if i == 5 then VArr(StorageSection(env))
    else if i == 6 then VArr(CacheSection(env))
    else if i == 7 then VArr(RateLimitSection(env))
    else if i == 8 then VArr(LoggingSection(env))
    else VArr(ExternalApisSection(env))
  }

  function Sections(env: Env): (s: seq<Value>)
    ensures |s| == |SectionKeys|
  {
    seq(|SectionKeys|, i requires 0 <= i < |SectionKeys| => Section(env, i))
  }

  /** `get("s.k")`, for a section and a key without dots, is the entry `k` of the array under `s`. */
  lemma TwoSegmentGet(a: PhpArray, s: string, k: string, d: Value)
    requires '.' !in s && '.' !in k
    requires s in a.vals && a.vals[s].VArr? && k in a.vals[s].a.vals
    ensures GetNested(a, s + "." + k, d) == a.vals[s].a.vals[k]
  {
    assert (s + "." + k)[|s|] == '.';
    SplitPrefix(s, k, '.');
    SplitNoSep(k, '.');
    assert s + "." + k == s + ['.'] + k;
    assert Split(s + "." + k, '.') == [s, k];
    var v := a.vals[s];
    assert Walk(VArr(a), [s, k], d) == Walk(v, [k], d);
    assert Walk(v, [k], d) == Walk(v.a.vals[k], [], d);
  }

  lemma JwtSectionAt(env: Env)
    ensures Sections(env)[2] == VArr(JwtSection(env))
  {
  }

  /** loadConfig lists each section under its key. */
  lemma {:induction false} SectionLoaded(s: seq<Value>, i: nat)
    requires |s| == |SectionKeys| && i < |SectionKeys|
    ensures SectionKeys[i] in Obj(SectionKeys, s).vals && Obj(SectionKeys, s).vals[SectionKeys[i]] == s[i]
  {
    SectionKeysDistinct();
    ObjSpec(SectionKeys, s, i);
  }

  lemma JwtSectionLoaded(env: Env)
    ensures "jwt" in LoadConfig(env).vals && LoadConfig(env).vals["jwt"] == VArr(JwtSection(env))
  {
    var s := Sections(env);
    SectionKeysDistinct();
    assert LoadConfig(env) == Obj(SectionKeys, s);
    SectionLoaded(s, 2);
    JwtKeyAt();
    JwtSectionAt(env);
  }

  /** The third section of loadConfig is "jwt". */
  lemma JwtKeyAt()
    ensures SectionKeys[2] == "jwt"
  {
  }

  /** An array whose "jwt" entry is the JWT section read from `env`. */
  predicate HasJwtSection(a: PhpArray, env: Env) {
    "jwt" in a.vals && a.vals["jwt"] == VArr(JwtSection(env))
  }

  lemma JwtExpiresAt(a: PhpArray, env: Env)
    requires HasJwtSection(a, env) && "JWT_EXPIRES_IN" !in env
    ensures GetNested(a, "jwt" + "." + "expires_in", VNull) == VInt(86400)
  {
    JwtKeysDistinct();
    ObjSpec(JwtKeys, JwtValues(env), 2);
    TwoSegmentGet(a, "jwt", "expires_in", VNull);
  }

  lemma JwtAlgorithmAt(a: PhpArray, env: Env)
    requires HasJwtSection(a, env) && "JWT_ALGORITHM" !in env
    ensures GetNested(a, "jwt" + "." + "algorithm", VNull) == VStr("HS256")
  {
    JwtKeysDistinct();
    ObjSpec(JwtKeys, JwtValues(env), 1);
    TwoSegmentGet(a, "jwt", "algorithm", VNull);
  }

  /** With no JWT_EXPIRES_IN in the environment, tokens live 86400 seconds (24 hours). */
  lemma JwtExpiresDefault(env: Env)
    requires "JWT_EXPIRES_IN" !in env
    ensures GetNested(LoadConfig(env), "jwt" + "." + "expires_in", VNull) == VInt(86400)
  {
    JwtSectionLoaded(env);
    JwtExpiresAt(LoadConfig(env), env);
  }

  /** With no JWT_ALGORITHM in the environment, tokens are signed with HS256. */
  lemma JwtAlgorithmDefault(env: Env)
    requires "JWT_ALGORITHM" !in env
    ensures GetNested(LoadConfig(env), "jwt" + "." + "algorithm", VNull) == VStr("HS256")
  {
    JwtSectionLoaded(env);
    JwtAlgorithmAt(LoadConfig(env), env);
  }

  // ---------------------------------------------------------------------------
  // The store object

  class Config {
    var config: PhpArray

    /** The constructor runs loadConfig. */
    constructor (env: Env)
      ensures config == LoadConfig(env)
    {
      config := LoadConfig(env);
    }

    /** `get($key, $default)`. */
    function Get(key: string, d: Value): (r: Value)
      reads this
      ensures '.' !in key ==> r == (if IsSet(config, key) then config.vals[key] else d)
      ensures '.' in key ==> r == (match Reach(VArr(config), Segments(key)) case Some(x) => x case None => d)
    {
      GetSpec(config, key, d);
      GetNested(config, key, d)
    }

    /** `has($key)`: the key resolves to a value other than null. */
    function Has(key: string): (b: bool)
      reads this
      ensures '.' !in key ==> (b <==> IsSet(config, key))
      ensures '.' in key ==> (b <==> Reach(VArr(config), Segments(key)).Some? && Reach(VArr(config), Segments(key)).value != VNull)
    {
      Get(key, VNull) != VNull
    }

    /**
     * `set($key, $value)`. The walk down the path collects, level by level,
     * the array the reference `$current` points into (replacing a missing or
     * non-array entry by an empty array); the write-back then rebuilds the
     * levels from the bottom, which is what writing through the reference
     * does to the nested value.
     */
    method Set(key: string, value: Value)
      modifies this
      ensures config == SetNested(old(config), key, value)
    {
      if '.' !in key {
        config := Put(config, key, value);
        return;
      }
      var keys := Split(key, '.');
      var levels: seq<PhpArray> := [config];
      var i := 0;
      while i < |keys| - 1
        invariant 0 <= i <= |keys| - 1 && |levels| == i + 1
        invariant levels[0] == config
        invariant forall j :: 0 <= j < i ==> levels[j + 1] == ChildArray(levels[j], keys[j])
      {
        levels := levels + [ChildArray(levels[i], keys[i])];
        i := i + 1;
      }
      var n := |keys| - 1;
      var acc := Put(levels[n], keys[n], value);
      assert keys[n..] == [keys[n]];
      var j := n;
      while j > 0
        invariant 0 <= j <= n
        invariant acc == Store(levels[j], keys[j..], value)
      {
        assert keys[j - 1..][1..] == keys[j..];
        acc := Put(levels[j - 1], keys[j - 1], VArr(acc));
        j := j - 1;
      }
      config := acc;
    }
  }
}
