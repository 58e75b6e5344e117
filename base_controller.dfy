/**
 * The helpers every controller inherits (src/Core/BaseController.php):
 * the JSON envelopes, required-field validation, string and array
 * sanitisation, pagination arithmetic and the authentication check.
 *
 * `jsonResponse` ends the request (`exit`), so a helper that answers is a
 * function returning the `Response`; the controllers return it at once.
 */
module BaseController {
  import opened Strings
  import opened Php
  import opened Http
  import Router

  // ---------------------------------------------------------------------------
  // Envelopes

  /** The body `success()` sends: success = true, the message, and `data` unless the data is null. */
  function SuccessBody(data: Value, message: string): (b: PhpArray)
    ensures Wf(b)
    ensures Get(b, "success") == Some(VBool(true)) && Get(b, "message") == Some(VStr(message))
    ensures Has(b, "data") <==> data != VNull
    ensures data != VNull ==> Get(b, "data") == Some(data) && b.keys == ["success", "message", "data"]
    ensures data == VNull ==> b.keys == ["success", "message"]
  {
    var b := Put(Put(EmptyMap(), "success", VBool(true)), "message", VStr(message));
    if data != VNull then Put(b, "data", data) else b
  }

  /**
   * `success($data, $message, $statusCode)`: a JSON response with that
   * status from which a client reads success = true, the message, and the
   * data back, or no data at all when it was null.
   */
  function Success(data: Value, message: string, status: int): (r: Response)
    ensures r.Json? && r.status == status && Wf(r.body)
    ensures Get(r.body, "success") == Some(VBool(true)) && Get(r.body, "message") == Some(VStr(message))
    ensures Get(r.body, "data") == (if data != VNull then Some(data) else None)
  {
    Json(status, SuccessBody(data, message))
  }

  /** The body `error()` sends: success = false, the message, and `errors` unless the list is empty. */
  function ErrorBody(message: string, errors: seq<string>): (b: PhpArray)
    ensures Wf(b)
    ensures Get(b, "success") == Some(VBool(false)) && Get(b, "message") == Some(VStr(message))
    ensures Has(b, "errors") <==> errors != []
    ensures errors != [] ==> Get(b, "errors") == Some(StringList(errors)) && b.keys == ["success", "message", "errors"]
    ensures errors == [] ==> b.keys == ["success", "message"]
  {
    var b := Put(Put(EmptyMap(), "success", VBool(false)), "message", VStr(message));
    if errors != [] then Put(b, "errors", StringList(errors)) else b
  }

  /**
   * `error($message, $statusCode, $errors)`: a JSON response with that
   * status from which a client reads success = false, the message, and the
   * list of errors back, or no errors at all when the list was empty.
   */
  function Error(message: string, status: int, errors: seq<string>): (r: Response)
    ensures r.Json? && r.status == status && Wf(r.body)
    ensures Get(r.body, "success") == Some(VBool(false)) && Get(r.body, "message") == Some(VStr(message))
    ensures Get(r.body, "errors") == (if errors != [] then Some(StringList(errors)) else None)
  {
    Json(status, ErrorBody(message, errors))
  }

  /** The two envelopes are told apart by their `success` flag. */
  lemma EnvelopesDistinct(data: Value, m: string, m': string, errors: seq<string>)
    ensures SuccessBody(data, m) != ErrorBody(m', errors)
  {
    assert Get(SuccessBody(data, m), "success") != Get(ErrorBody(m', errors), "success");
  }

  // ---------------------------------------------------------------------------
  // validateRequired

  /** The message for a missing field. */
  function FieldMessage(f: string): string {
    "Field '" + f + "' is required"
  }

  /** The required fields that are absent or PHP-empty, in the order they are required. */
  function MissingFields(data: PhpArray, required: seq<string>): (r: seq<string>)
    ensures |r| <= |required|
    decreases |required|
  {
    if required == [] then []
    else (if MissingOrEmpty(data, required[0]) then [required[0]] else []) + MissingFields(data, required[1..])
  }

  /** What validateRequired returns: one message per missing field, in order. */
  function RequiredErrors(data: PhpArray, required: seq<string>): (errors: seq<string>)
    ensures |errors| == |MissingFields(data, required)|
  {
    var m := MissingFields(data, required);
    seq(|m|, i requires 0 <= i < |m| => FieldMessage(m[i]))
  }

  /** Missing fields of a concatenation are those of each part, in order. */
  lemma {:induction false} MissingFieldsAppend(data: PhpArray, a: seq<string>, b: seq<string>)
    ensures MissingFields(data, a + b) == MissingFields(data, a) + MissingFields(data, b)
    decreases |a|
  {
    if a == [] {
      assert a + b == b;
    } else {
      MissingFieldsAppend(data, a[1..], b);
      assert (a + b)[0] == a[0] && (a + b)[1..] == a[1..] + b;
    }
  }

  /** A field is reported exactly when it is required and missing or empty. */
  lemma {:induction false} MissingFieldsMembers(data: PhpArray, required: seq<string>)
    ensures forall f :: f in MissingFields(data, required) <==> f in required && MissingOrEmpty(data, f)
    decreases |required|
  {
    if required != [] {
      MissingFieldsMembers(data, required[1..]);
      assert forall f :: f in required <==> f == required[0] || f in required[1..];
    }
  }

  /**
   * The errors are empty exactly when every required field is set and not
   * empty; otherwise they name, in order, each field that is missing, once
   * per listing.
   */
  lemma RequiredErrorsSpec(data: PhpArray, required: seq<string>)
    ensures RequiredErrors(data, required) == [] <==> forall f :: f in required ==> !MissingOrEmpty(data, f)
    ensures |RequiredErrors(data, required)| <= |required|
    ensures forall i :: 0 <= i < |RequiredErrors(data, required)| ==>
      RequiredErrors(data, required)[i] == FieldMessage(MissingFields(data, required)[i])
    ensures forall f :: f in MissingFields(data, required) <==> f in required && MissingOrEmpty(data, f)
  {
    MissingFieldsMembers(data, required);
    if forall f :: f in required ==> !MissingOrEmpty(data, f) {
      assert MissingFields(data, required) == [];
    } else {
      var f :| f in required && MissingOrEmpty(data, f);
      assert f in MissingFields(data, required);
    }
  }

  /** The errors of a list of required fields are those of its front followed by those of its back. */
  lemma RequiredErrorsAppend(data: PhpArray, a: seq<string>, b: seq<string>)
    ensures RequiredErrors(data, a + b) == RequiredErrors(data, a) + RequiredErrors(data, b)
  {
    MissingFieldsAppend(data, a, b);
  }

  /** validateRequired: the foreach over the required fields, appending a message for each missing one. */
  method ValidateRequired(data: PhpArray, required: seq<string>) returns (errors: seq<string>)
    ensures errors == RequiredErrors(data, required)
  {
    errors := [];
    var i := 0;
    while i < |required|
      invariant 0 <= i <= |required|
      invariant errors == RequiredErrors(data, required[..i])
    {
      var field := required[i];
      RequiredErrorsAppend(data, required[..i], [field]);
      assert required[..i + 1] == required[..i] + [field];
      if MissingOrEmpty(data, field) {
        errors := errors + [FieldMessage(field)];
      }
      i := i + 1;
    }
    assert required[..i] == required;
  }

  // ---------------------------------------------------------------------------
  // sanitizeString and sanitizeArray

  /** `filter_var($email, FILTER_VALIDATE_EMAIL) !== false` is not modelled: validateEmail is this parameter. */
  type EmailCheck = string -> bool

  /** `strip_tags` is not modelled either. */
  type TagStripper = string -> string

  /** htmlspecialchars with ENT_QUOTES on one character. */
  function EscapeChar(c: char): string {
    if c == '&' then "&amp;"
    else if c == '"' then "&quot;"
    else if c == '\'' then "&#039;"
    else if c == '<' then "&lt;"
    else if c == '>' then "&gt;"
    else [c]
  }

  /** `htmlspecialchars($s, ENT_QUOTES, 'UTF-8')`. */
  function HtmlEscape(s: string): string
    decreases |s|
  {
    if s == [] then [] else EscapeChar(s[0]) + HtmlEscape(s[1..])
  }

  /** The characters htmlspecialchars rewrites. */
  predicate IsSpecial(c: char) {
    c == '&' || c == '"' || c == '\'' || c == '<' || c == '>'
  }

  /** The reverse mapping: each of the five entities back to its character. */
  function HtmlUnescape(s: string): string
    decreases |s|
  {
    if s == [] then []
    else if |s| >= 5 && s[..5] == "&amp;" then "&" + HtmlUnescape(s[5..])
    else if |s| >= 6 && s[..6] == "&quot;" then "\"" + HtmlUnescape(s[6..])
    else if |s| >= 6 && s[..6] == "&#039;" then "'" + HtmlUnescape(s[6..])
    else if |s| >= 4 && s[..4] == "&lt;" then "<" + HtmlUnescape(s[4..])
    else if |s| >= 4 && s[..4] == "&gt;" then ">" + HtmlUnescape(s[4..])
    else [s[0]] + HtmlUnescape(s[1..])
  }

  lemma UnescapeEntity(e: string, c: char, rest: string)
    requires IsSpecial(c) && e == EscapeChar(c)
    ensures HtmlUnescape(e + rest) == [c] + HtmlUnescape(rest)
  {
    var s := e + rest;
    assert s[..|e|] == e && s[|e|..] == rest;
    if c == '&' {
      assert s[..5] == "&amp;";
    } else if c == '"' {
      assert s[..5] != "&amp;" by { assert s[1] == 'q'; }
      assert s[..6] == "&quot;";
    } else if c == '\'' {
      assert s[..5] != "&amp;" by { assert s[1] == '#'; }
      assert s[..6] != "&quot;" by { assert s[1] == '#'; }
      assert s[..6] == "&#039;";
    } else if c == '<' {
      assert (|s| >= 5 ==> s[..5] != "&amp;") && (|s| >= 6 ==> s[..6] != "&quot;" && s[..6] != "&#039;") by { assert s[1] == 'l'; }
      assert s[..4] == "&lt;";
    } else {
      assert (|s| >= 5 ==> s[..5] != "&amp;") && (|s| >= 6 ==> s[..6] != "&quot;" && s[..6] != "&#039;") && s[..4] != "&lt;" by { assert s[1] == 'g'; }
      assert s[..4] == "&gt;";
    }
  }

  lemma UnescapePlain(c: char, rest: string)
    requires !IsSpecial(c)
    ensures HtmlUnescape([c] + rest) == [c] + HtmlUnescape(rest)
  {
    var s := [c] + rest;
    assert s[0] == c && s[1..] == rest;
    assert |s| >= 4 ==> s[..4][0] == c;
    assert |s| >= 5 ==> s[..5][0] == c;
    assert |s| >= 6 ==> s[..6][0] == c;
  }

  /** Escaping loses nothing: unescaping gives the input back. */
  lemma {:induction false} EscapeRoundTrip(s: string)
    ensures HtmlUnescape(HtmlEscape(s)) == s
    decreases |s|
  {
    if s != [] {
      var t := HtmlEscape(s[1..]);
      EscapeRoundTrip(s[1..]);
      UnescapeOne(s[0], t);
      assert [s[0]] + s[1..] == s;
    }
  }

  /** Unescaping one escaped character followed by any text. */
  lemma UnescapeOne(c: char, rest: string)
    ensures HtmlUnescape(EscapeChar(c) + rest) == [c] + HtmlUnescape(rest)
  {
    if IsSpecial(c) {
      UnescapeEntity(EscapeChar(c), c, rest);
    } else {
      UnescapePlain(c, rest);
    }
  }

  /** Escaped text holds no quote and no angle bracket. */
  lemma {:induction false} EscapeRemovesMarkup(s: string)
    ensures '<' !in HtmlEscape(s) && '>' !in HtmlEscape(s) && '"' !in HtmlEscape(s) && '\'' !in HtmlEscape(s)
    decreases |s|
  {
    if s != [] {
      EscapeRemovesMarkup(s[1..]);
      var e := EscapeChar(s[0]);
      assert '<' !in e && '>' !in e && '"' !in e && '\'' !in e;
    }
  }

  /** Text without any of the five characters is left as it is. */
  lemma {:induction false} EscapePlainText(s: string)
    requires forall i :: 0 <= i < |s| ==> !IsSpecial(s[i])
    ensures HtmlEscape(s) == s
    decreases |s|
  {
    if s != [] {
      EscapePlainText(s[1..]);
      assert [s[0]] + s[1..] == s;
    }
  }

  /** Escaping never shortens a text, and lengthens every text holding one of the five characters. */
  lemma {:induction false} EscapeLonger(s: string)
    ensures |HtmlEscape(s)| >= |s|
    ensures (exists i :: 0 <= i < |s| && IsSpecial(s[i])) ==> |HtmlEscape(s)| > |s|
    decreases |s|
  {
    if s != [] {
      EscapeLonger(s[1..]);
      if exists i :: 0 <= i < |s| && IsSpecial(s[i]) {
        var i :| 0 <= i < |s| && IsSpecial(s[i]);
        if i > 0 {
          assert s[1..][i - 1] == s[i];
        }
      }
    }
  }

  /** Escaping is not idempotent: an ampersand is escaped again on a second pass. */
  lemma EscapeTwice()
    ensures HtmlEscape("&") == "&amp;" && HtmlEscape(HtmlEscape("&")) == "&amp;amp;"
  {
    assert "&"[1..] == [];
    assert HtmlEscape("&") == "&amp;" + HtmlEscape([]);
    EscapePlainText("amp;");
    assert HtmlEscape("&amp;") == "&amp;" + HtmlEscape("amp;");
  }

  /** `sanitizeString`: trim, strip tags, then escape. */
  function SanitizeString(s: string, strip: TagStripper): string {
    HtmlEscape(strip(Trim(s)))
  }

  /** sanitizeArray on one value: arrays recursively, strings sanitised, everything else kept. */
  function SanitizeValue(v: Value, strip: TagStripper): Value
    decreases v
  {
    match v
    case VArr(a) => VArr(OrderedMap(a.keys, map k | k in a.vals :: SanitizeValue(a.vals[k], strip)))
    case VStr(s) => VStr(SanitizeString(s, strip))
    case _ => v
  }

  /** The spec of `sanitizeArray($data)`. */
  function SanitizedArray(a: PhpArray, strip: TagStripper): PhpArray {
    SanitizeValue(VArr(a), strip).a
  }

  /** A value with every string blanked: what is left of its keys and nesting. */
  function Skeleton(v: Value): Value
    decreases v
  {
    match v
    case VArr(a) => VArr(OrderedMap(a.keys, map k | k in a.vals :: Skeleton(a.vals[k])))
    case VStr(_) => VStr("")
    case _ => v
  }

  /** Sanitising keeps keys, their order and the nesting, and changes no non-string scalar. */
  lemma {:induction false} SanitizeKeepsShape(v: Value, strip: TagStripper)
    ensures Skeleton(SanitizeValue(v, strip)) == Skeleton(v)
    decreases v
  {
    match v
    case VArr(a) =>
      var s := SanitizeValue(v, strip).a;
      forall k | k in a.vals ensures Skeleton(s.vals[k]) == Skeleton(a.vals[k]) {
        SanitizeKeepsShape(a.vals[k], strip);
      }
      assert Skeleton(SanitizeValue(v, strip)).a.vals == Skeleton(v).a.vals;
    case _ =>
  }

  /** Each entry of a sanitised array: strings sanitised, arrays sanitised recursively, the rest kept. */
  lemma SanitizeEntries(a: PhpArray, strip: TagStripper, k: string)
    requires k in a.vals
    ensures SanitizedArray(a, strip).keys == a.keys
    ensures k in SanitizedArray(a, strip).vals
    ensures a.vals[k].VStr? ==> SanitizedArray(a, strip).vals[k] == VStr(SanitizeString(a.vals[k].s, strip))
    ensures a.vals[k].VArr? ==> SanitizedArray(a, strip).vals[k] == VArr(SanitizedArray(a.vals[k].a, strip))
    ensures !a.vals[k].VStr? && !a.vals[k].VArr? ==> SanitizedArray(a, strip).vals[k] == a.vals[k]
  {
    var r := SanitizedArray(a, strip);
    assert r.vals[k] == SanitizeValue(a.vals[k], strip);
  }

  /**
   * sanitizeArray: the foreach over the entries, in order, building a new
   * array; nested arrays go through the same method.
   */
  method SanitizeArray(data: PhpArray, strip: TagStripper) returns (r: PhpArray)
    requires DeepWf(VArr(data))
    ensures r == SanitizedArray(data, strip)
    decreases VArr(data)
  {
    r := EmptyMap();
    var i := 0;
    while i < |data.keys|
      invariant 0 <= i <= |data.keys|
      invariant SanitizedUpTo(data, strip, r, i)
    {
      var key := data.keys[i];
      var value := data.vals[key];
      var clean: Value;
      if value.VArr? {
        var inner := SanitizeArray(value.a, strip);
        clean := VArr(inner);
      } else if value.VStr? {
        clean := VStr(SanitizeString(value.s, strip));
      } else {
        clean := value;
      }
      SanitizeStep(data, strip, r, i);
      r := Put(r, key, clean);
      i := i + 1;
    }
    SanitizeDone(data, strip, r);
  }

  /** The loop's invariant: `r` holds the first `i` entries of `data`, sanitised, in order. */
  ghost predicate SanitizedUpTo(data: PhpArray, strip: TagStripper, r: PhpArray, i: nat)
    requires i <= |data.keys|
  {
    BuiltUpTo(data.keys, SanitizedArray(data, strip).vals, r, i)
  }

  /** One turn of the foreach: the next entry, sanitised, goes at the end. */
  lemma SanitizeStep(data: PhpArray, strip: TagStripper, r: PhpArray, i: nat)
    requires DeepWf(VArr(data)) && i < |data.keys|
    requires SanitizedUpTo(data, strip, r, i)
    ensures SanitizedUpTo(data, strip, Put(r, data.keys[i], SanitizeValue(data.vals[data.keys[i]], strip)), i + 1)
  {
    var target := SanitizedArray(data, strip).vals;
    assert data.keys[i] in target && target[data.keys[i]] == SanitizeValue(data.vals[data.keys[i]], strip);
    PutNext(data.keys, target, r, i);
  }

  /** After the last turn the new array is the sanitised one. */
  lemma SanitizeDone(data: PhpArray, strip: TagStripper, r: PhpArray)
    requires SanitizedUpTo(data, strip, r, |data.keys|)
    requires DeepWf(VArr(data))
    ensures r == SanitizedArray(data, strip)
  {
    assert data.keys[..|data.keys|] == data.keys;
    assert r.vals == SanitizedArray(data, strip).vals;
  }

  // ---------------------------------------------------------------------------
  // Pagination

  /** `ceil($a / $b)` on integers, for a divisor other than zero. */
  function CeilDiv(a: int, b: int): (c: int)
    requires b != 0
    ensures b > 0 ==> (c - 1) * b < a <= c * b
    ensures b < 0 ==> c * b <= a < (c - 1) * b
  {
    if b > 0 then -((-a) / b) else -(a / (-b))
  }

  /** The numbers of a `pagination` object. */
  datatype Window = Window(currentPage: int, perPage: int, total: int, lastPage: int, from: int, to: int)

  /**
   * The window over `total` rows for a page and a page size, as both
   * paginate and CategoryController::index compute it (paginate clamps the
   * page first). PHP's `ceil` divides by zero with an error.
   */
  function PageWindow(page: int, perPage: int, total: int): (r: Result<Window>)
    ensures perPage == 0 <==> r.Err?
    ensures r.Ok? ==> r.value.currentPage == page && r.value.perPage == perPage && r.value.total == total
    ensures r.Ok? ==> r.value.from == (page - 1) * perPage + 1
    ensures r.Ok? ==> r.value.to == if (page - 1) * perPage + perPage <= total then (page - 1) * perPage + perPage else total
    ensures r.Ok? && perPage > 0 ==> (r.value.lastPage - 1) * perPage < total <= r.value.lastPage * perPage
  {
    if perPage == 0 then Err("Division by zero")
    else
      var offset := (page - 1) * perPage;
      Ok(Window(page, perPage, total, CeilDiv(total, perPage), offset + 1, Min(offset + perPage, total)))
  }

  function Min(a: int, b: int): int { if a <= b then a else b }

  /** `max(1, $page)`. */
  function ClampPage(page: int): (p: int)
    ensures p >= 1 && (page >= 1 ==> p == page)
  {
    if page < 1 then 1 else page
  }

  /** The count query paginate runs. */
  function CountSql(sql: string): string {
    "SELECT COUNT(*) as total FROM (" + sql + ") as count_query"
  }

  /** The page query paginate runs. */
  function PageSql(sql: string, perPage: int, offset: int): string {
    sql + " LIMIT " + IntToString(perPage) + " OFFSET " + IntToString(offset)
  }

  /** The array a window becomes (`last_page` is the float PHP's ceil returns, here its integer value). */
  function WindowArray(w: Window): PhpArray {
    Obj(["current_page", "per_page", "total", "last_page", "from", "to"],
        [VInt(w.currentPage), VInt(w.perPage), VInt(w.total), VInt(w.lastPage), VInt(w.from), VInt(w.to)])
  }

  /** What paginate computes: the clamped window, the two queries, and its `data`/`pagination` array. */
  datatype Paginated = Paginated(window: Window, countSql: string, pageSql: string, result: PhpArray)

  /**
   * paginate, with the COUNT result `total` and the fetched rows `rows`
   * given (the database is not modelled).
   */
  function Paginate(sql: string, page: int, perPage: int, total: int, rows: Value): (r: Result<Paginated>)
    ensures perPage == 0 <==> r.Err?
    ensures r.Ok? ==> r.value.window.currentPage == ClampPage(page) && r.value.window.currentPage >= 1
    ensures r.Ok? ==> r.value.countSql == CountSql(sql)
    ensures r.Ok? ==> r.value.pageSql == PageSql(sql, perPage, (ClampPage(page) - 1) * perPage)
  {
    var p := ClampPage(page);
    match PageWindow(p, perPage, total)
    case Err(m) => Err(m)
    case Ok(w) =>
      Ok(Paginated(w, CountSql(sql), PageSql(sql, perPage, (p - 1) * perPage),
        Obj(["data", "pagination"], [rows, VArr(WindowArray(w))])))
  }

  /**
   * Consecutive pages tile the rows: each window starts where the previous
   * one ended, every page up to the last starts at a row that exists, and
   * the last page ends at the last row.
   */
  lemma WindowsTile(page: int, perPage: int, total: int)
    requires page >= 1 && perPage > 0 && total > 0
    ensures PageWindow(page + 1, perPage, total).value.from == (page * perPage) + 1
    ensures PageWindow(page, perPage, total).value.to == Min(page * perPage, total)
    ensures page <= PageWindow(page, perPage, total).value.lastPage ==> PageWindow(page, perPage, total).value.from <= total
    ensures page == PageWindow(page, perPage, total).value.lastPage ==> PageWindow(page, perPage, total).value.to == total
    ensures page > PageWindow(page, perPage, total).value.lastPage ==> PageWindow(page, perPage, total).value.from > total
  {
    var w := PageWindow(page, perPage, total).value;
    assert (page - 1) * perPage + perPage == page * perPage;
    if page <= w.lastPage {
      assert (page - 1) * perPage <= (w.lastPage - 1) * perPage by {
        MulMono(page - 1, w.lastPage - 1, perPage);
      }
    } else {
      assert w.lastPage * perPage <= (page - 1) * perPage by {
        MulMono(w.lastPage, page - 1, perPage);
      }
    }
  }

  lemma MulMono(a: int, b: int, c: int)
    requires a <= b && c >= 0
    ensures a * c <= b * c
  {
  }

  // ---------------------------------------------------------------------------
  // requireAuth

  /** What requireAuth gives back: the decoded claims, or the response that ended the request. */
  datatype Auth = Authorized(claims: Claims) | Refused(response: Response)

  /**
   * requireAuth with the configured key (`jwt.secret` and `jwt.algorithm`), and the sessions
   * table after it: an expired token deletes the sessions holding it.
   */
  function RequireAuth(header: Option<string>, key: JwtKey, decode: Decoder, sessions: seq<Session>): (Auth, seq<Session>) {
    match BearerToken(header)
    case None => (Refused(Error("Unauthorized: Missing or invalid token", 401, [])), sessions)
    case Some(jwt) =>
      match decode(key, jwt)
      case Valid(c) =>
        if HasSession(sessions, c.userId, jwt) then (Authorized(c), sessions)
        else (Refused(Error("Unauthorized: Invalid session", 401, [])), sessions)
      case Expired => (Refused(Error("Unauthorized: Token expired", 401, [])), DeleteByToken(sessions, jwt))
      case Rejected(_) => (Refused(Error("Unauthorized: Invalid token", 401, [])), sessions)
  }

  /**
   * requireAuth answers 401 on a missing or malformed header, an expired
   * token (after deleting its sessions), any other decoding failure and a
   * token without a session; otherwise it returns the token's claims, whose
   * user holds a session with that token.
   */
  lemma RequireAuthSpec(header: Option<string>, key: JwtKey, decode: Decoder, sessions: seq<Session>)
    ensures var (a, after) := RequireAuth(header, key, decode, sessions);
      (a.Refused? ==> a.response.Json? && a.response.status == 401) &&
      (BearerToken(header).None? ==> a.Refused? && after == sessions) &&
      (a.Authorized? <==>
         BearerToken(header).Some? && decode(key, BearerToken(header).value).Valid? &&
         HasSession(sessions, decode(key, BearerToken(header).value).claims.userId, BearerToken(header).value)) &&
      (a.Authorized? ==> a.claims == decode(key, BearerToken(header).value).claims) &&
      (BearerToken(header).Some? && decode(key, BearerToken(header).value).Expired? ==>
         a.Refused? && after == DeleteByToken(sessions, BearerToken(header).value)) &&
      (!(BearerToken(header).Some? && decode(key, BearerToken(header).value).Expired?) ==> after == sessions)
  {
  }

  /**
   * With the configured algorithm HS256 (the default) and the same secret,
   * requireAuth and the router's gate reach the same decision and leave the
   * same sessions; only their messages differ.
   */
  lemma RequireAuthMatchesRouter(header: Option<string>, secret: string, algorithm: string, decode: Decoder, sessions: seq<Session>)
    requires algorithm == Router.RouterAlgorithm
    ensures RequireAuth(header, JwtKey(secret, algorithm), decode, sessions).0.Authorized? <==>
            Router.RouterGate(header, secret, decode, sessions).0.Through?
    ensures RequireAuth(header, JwtKey(secret, algorithm), decode, sessions).1 == Router.RouterGate(header, secret, decode, sessions).1
  {
  }

  /**
   * With another algorithm the two gates disagree: a token that decodes
   * under the configured algorithm, but that the library refuses for HS256,
   * passes requireAuth while the router answers 401 before any handler runs.
   */
  lemma OtherAlgorithmLocksOut(header: Option<string>, secret: string, algorithm: string, decode: Decoder, sessions: seq<Session>)
    requires BearerToken(header).Some?
    requires decode(JwtKey(secret, algorithm), BearerToken(header).value).Valid?
    requires HasSession(sessions, decode(JwtKey(secret, algorithm), BearerToken(header).value).claims.userId, BearerToken(header).value)
    requires decode(JwtKey(secret, Router.RouterAlgorithm), BearerToken(header).value).Rejected?
    ensures RequireAuth(header, JwtKey(secret, algorithm), decode, sessions).0.Authorized?
    ensures Router.RouterGate(header, secret, decode, sessions).0.Denied?
  {
  }
}
