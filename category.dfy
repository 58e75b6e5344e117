/**
 * The category endpoints (src/Controllers/CategoryController.php) over an
 * in-memory `categories` table: the listing with its filters and
 * pagination, and the create, update and delete rules. The tree the
 * `tree` endpoint builds is the CategoryTree module.
 *
 * The table is a class whose methods change its rows as the endpoints do;
 * each method is tied to a function from the old table to the response and
 * the new table, and the rules are lemmas about those functions.
 *
 * The file declares `strict_types=1`, so a non-string handed to
 * sanitizeString raises a TypeError. That is an Error, not an Exception:
 * the `catch (\Exception $e)` blocks miss it and the request dies (Fatal).
 * A failing statement raises a PDOException, which those blocks turn into
 * a 500 "Failed to ...: <driver message>".
 *
 * The update statement takes the WHERE marker of Database.Update: as
 * written, `id = ?` beside the named markers of the SET list, which PDO
 * refuses, or the corrected named marker.
 */
module CategoryController {
  import opened Strings
  import opened Php
  import opened Http
  import opened BaseController
  import opened CategoryTree
  import D = Database

  /**
   * What the endpoints take from outside: the clock, the JWT secret,
   * algorithm and decoder, strip_tags, json_encode, json_decode (to an
   * associative array), and the message the driver puts in a PDOException.
   */
  datatype World = World(
    now: int, secret: string, algorithm: string, decode: Decoder, strip: TagStripper,
    encode: Value -> string, jsonDecode: string -> Value, dbMessage: string)

  /** The table: its rows, and the id AUTO_INCREMENT hands out next. */
  datatype Table = Table(rows: seq<Category>, nextId: int)

  /** The uncaught TypeError of a non-string passed to sanitizeString. */
  const TypeError := Fatal("TypeError")

  // ---------------------------------------------------------------------------
  // Reading request values

  /** `(int)$v`: strings by their leading integer, arrays by emptiness. */
  function IntCast(v: Value): int {
    match v
    case VNull => 0
    case VBool(b) => if b then 1 else 0
    case VInt(i) => i
    case VStr(s) => LeadingInt(s)
    case VArr(a) => if a.keys == [] then 0 else 1
  }

  /** A value inside a double-quoted string, or bound as a PDO parameter: scalars as text, an array as "Array". */
  function Interpolated(v: Value): string {
    match TextOf(v)
    case Some(s) => s
    case None => "Array"
  }

  /** The integer an integer column holds for a written value; none for NULL and for arrays. */
  function SqlInt(v: Value): Option<int> {
    match v
    case VNull => None
    case VBool(b) => Some(if b then 1 else 0)
    case VInt(i) => Some(i)
    case VStr(s) => Some(LeadingInt(s))
    case VArr(_) => None
  }

  /** `column = ?` on an integer column: NULL equals nothing. */
  predicate SqlIntEq(column: Value, param: Value) {
    SqlInt(column).Some? && SqlInt(column) == SqlInt(param)
  }

  // ---------------------------------------------------------------------------
  // index: filters

  /** The parent filter the query string asks for. */
  datatype ParentFilter = AnyParent | NullParent | ParentIs(param: Value)

  /** `$_GET['parent_id'] ?? null`, with '0' and 'null' (compared strictly) meaning the top level. */
  function ParentFilterOf(query: PhpArray): ParentFilter {
    var parentId := Coalesce(query, "parent_id", VNull);
    if parentId == VNull then AnyParent
    else if parentId == VStr("0") || parentId == VStr("null") then NullParent
    else ParentIs(parentId)
  }

  /** The search text, when `$_GET['search'] ?? null` is truthy. */
  function SearchOf(query: PhpArray): Option<string> {
    var search := Coalesce(query, "search", VNull);
    if Truthy(search) then Some(Interpolated(search)) else None
  }

  /** What the listing query holds after its select list and before the search: the table and the parent filter. */
  function TailBefore(f: ParentFilter): string {
    " FROM categories WHERE 1=1"
    + (match f
       case AnyParent => ""
       case NullParent => " AND parent_id IS NULL"
       case ParentIs(_) => " AND parent_id = :parent_id")
  }

  /** The named marker the search condition binds. */
  const SearchMarker := ":search"

  /** The condition a search adds. */
  const SearchClause := " AND (name LIKE " + SearchMarker + " OR description LIKE " + SearchMarker + ")"

  /** The ordering that ends the listing query. */
  const OrderBy := " ORDER BY sort_order ASC, name ASC"

  /** Everything of the listing query after its select list. */
  function IndexTail(f: ParentFilter, search: Option<string>): string {
    TailBefore(f) + (if search.Some? then SearchClause else "") + OrderBy
  }

  /** The listing query before pagination. */
  function IndexSql(f: ParentFilter, search: Option<string>): string {
    "SELECT *" + IndexTail(f, search)
  }

  /** The count query: the listing query with its select list replaced. */
  function IndexCountSql(f: ParentFilter, search: Option<string>): string {
    "SELECT COUNT(*) as total" + IndexTail(f, search)
  }

  /** The named parameters of both queries. */
  function IndexParams(f: ParentFilter, search: Option<string>): PhpArray {
    var p: PhpArray := if f.ParentIs? then Put(EmptyMap(), "parent_id", f.param) else EmptyMap();
    if search.Some? then Put(p, "search", VStr("%" + search.value + "%")) else p
  }

  /**
   * The parameters name exactly the placeholders the query holds: a
   * `parent_id` exactly for an equality filter, bound to the request value,
   * and a `search` exactly when a search is given, bound to it between two
   * `%` wildcards.
   */
  lemma IndexParamsSpec(f: ParentFilter, search: Option<string>)
    ensures Wf(IndexParams(f, search))
    ensures Has(IndexParams(f, search), "parent_id") <==> f.ParentIs?
    ensures f.ParentIs? ==> Get(IndexParams(f, search), "parent_id") == Some(f.param)
    ensures Has(IndexParams(f, search), "search") <==> search.Some?
    ensures search.Some? ==> Get(IndexParams(f, search), "search") == Some(VStr("%" + search.value + "%"))
    ensures forall k :: Has(IndexParams(f, search), k) ==> k == "parent_id" || k == "search"
  {
    var p: PhpArray := if f.ParentIs? then Put(EmptyMap(), "parent_id", f.param) else EmptyMap();
    if f.ParentIs? {
      PutOrder(EmptyMap(), "parent_id", f.param);
    }
    if search.Some? {
      PutOrder(p, "search", VStr("%" + search.value + "%"));
    }
  }

  /** LIKE '%s%' on a text column; NULL matches nothing. */
  predicate Like(column: Value, s: string) {
    column.VStr? && Contains(column.s, s)
  }

  /** The WHERE clause of the listing, on one row. */
  predicate Selects(f: ParentFilter, search: Option<string>, c: Category) {
    && (match f
        case AnyParent => true
        case NullParent => c.parentId == VNull
        case ParentIs(v) => SqlIntEq(c.parentId, v))
    && (search.None? || Like(c.name, search.value) || Like(c.description, search.value))
  }

  /** The rows the listing query returns, in table order. */
  function Selected(rows: seq<Category>, f: ParentFilter, search: Option<string>): (r: seq<Category>)
    ensures forall x :: x in r <==> x in rows && Selects(f, search, x)
    ensures |r| <= |rows|
    decreases |rows|
  {
    if rows == [] then []
    else
      var front := rows[..|rows| - 1];
      assert forall x :: x in rows <==> x in front || x == rows[|rows| - 1];
      var r := Selected(front, f, search);
      if Selects(f, search, rows[|rows| - 1]) then r + [rows[|rows| - 1]] else r
  }

  /**
   * The parent filter of the listing: without a `parent_id` every row
   * passes; '0' or 'null' keeps exactly the top-level rows (a NULL parent,
   * not a parent 0); any other value keeps exactly the rows whose parent
   * equals that value as an integer.
   */
  lemma ParentFilterSpec(query: PhpArray, rows: seq<Category>)
    ensures var f := ParentFilterOf(query);
      forall x :: x in Selected(rows, f, None) <==>
        && x in rows
        && (IsSet(query, "parent_id") && query.vals["parent_id"] in {VStr("0"), VStr("null")} ==> x.parentId == VNull)
        && (IsSet(query, "parent_id") && query.vals["parent_id"] !in {VStr("0"), VStr("null")} ==>
              SqlIntEq(x.parentId, query.vals["parent_id"]))
  {
  }

  /** The search keeps exactly the rows whose name or description holds the text; a falsy search keeps every row. */
  lemma SearchSpec(query: PhpArray, rows: seq<Category>)
    ensures SearchOf(query).None? <==> !Truthy(Coalesce(query, "search", VNull))
    ensures forall x :: x in Selected(rows, AnyParent, SearchOf(query)) <==>
      x in rows && (SearchOf(query).Some? ==> Like(x.name, SearchOf(query).value) || Like(x.description, SearchOf(query).value))
  {
  }

  // ---------------------------------------------------------------------------
  // index: the page

  /** `LIMIT limit OFFSET offset` on the selected rows. */
  function PageRows(s: seq<Category>, offset: int, limit: int): (r: seq<Category>)
    requires offset >= 0 && limit >= 0
    ensures |r| == if offset >= |s| then 0 else Min(offset + limit, |s|) - offset
    ensures forall i :: 0 <= i < |r| ==> r[i] == s[offset + i]
  {
    if offset >= |s| then [] else s[offset..Min(offset + limit, |s|)]
  }

  /** `$category['metadata'] ? json_decode($category['metadata'], true) : null` on a fetched column (text or NULL). */
  function DecodedMetadata(m: Value, jsonDecode: string -> Value): Value {
    match m
    case VStr(s) => if Truthy(m) then jsonDecode(s) else VNull
    case _ => VNull
  }

  /** A fetched row with its metadata decoded. */
  function Decoded(c: Category, jsonDecode: string -> Value): Category {
    c.(metadata := DecodedMetadata(c.metadata, jsonDecode))
  }

  /** The foreach by reference over the fetched rows, decoding each row's metadata in place. */
  method DecodeRows(a: array<Category>, jsonDecode: string -> Value)
    modifies a
    ensures forall i :: 0 <= i < a.Length ==> a[i] == Decoded(old(a[i]), jsonDecode)
  {
    var i := 0;
    while i < a.Length
      invariant 0 <= i <= a.Length
      invariant forall j :: 0 <= j < i ==> a[j] == Decoded(old(a[j]), jsonDecode)
      invariant forall j :: i <= j < a.Length ==> a[j] == old(a[j])
    {
      a[i] := a[i].(metadata := DecodedMetadata(a[i].metadata, jsonDecode));
      i := i + 1;
    }
  }

  /** A row as the JSON object the endpoints send, its columns in table order. */
  function RowArray(c: Category): PhpArray {
    Obj(["id", "name", "slug", "description", "parent_id", "sort_order", "is_active", "metadata", "created_at", "updated_at"],
        [VInt(c.id), c.name, c.slug, c.description, c.parentId, c.sortOrder, c.isActive, c.metadata, VInt(c.createdAt), VInt(c.updatedAt)])
  }

  /** The `data` of the listing. */
  function IndexData(shown: seq<Category>, win: Window): Value {
    VArr(Obj(["categories", "pagination"],
             [VArr(ListOf(seq(|shown|, i requires 0 <= i < |shown| => VArr(RowArray(shown[i]))))), VArr(WindowArray(win))]))
  }

  /** The numbers index reads from the query string. */
  function PageOf(query: PhpArray): int { IntCast(Coalesce(query, "page", VInt(1))) }
  function LimitOf(query: PhpArray): int { IntCast(Coalesce(query, "limit", VInt(20))) }

  /**
   * index: the count, then the page of rows (MySQL refuses a negative LIMIT
   * or OFFSET, a 500), the metadata decoded, then the window, whose `ceil`
   * divides by a limit of 0 with an uncaught DivisionByZeroError.
   */
  function IndexOutcome(query: PhpArray, w: World, rows: seq<Category>): Response {
    Listing(PageOf(query), LimitOf(query), Selected(rows, ParentFilterOf(query), SearchOf(query)), w)
  }

  /** index once the numbers are read and the rows selected. */
  function Listing(page: int, limit: int, selected: seq<Category>, w: World): Response {
    var offset := (page - 1) * limit;
    if limit < 0 || offset < 0 then Error("Failed to retrieve categories: " + w.dbMessage, 500, [])
    else
      match PageWindow(page, limit, |selected|)
      case Err(_) => Fatal("DivisionByZeroError")
      case Ok(win) =>
        Success(IndexData(DecodedAll(PageRows(selected, offset, limit), w.jsonDecode), win), "Categories retrieved successfully", 200)
  }

  /** The fetched rows, each with its metadata decoded. */
  function DecodedAll(s: seq<Category>, jsonDecode: string -> Value): seq<Category> {
    seq(|s|, i requires 0 <= i < |s| => Decoded(s[i], jsonDecode))
  }

  /**
   * The listing's pagination: with a positive limit and a page from 1 on,
   * the answer is a 200 listing the selected rows from offset
   * (page - 1) * limit on, at most limit of them (none for a page past the
   * end: the page is not clamped), metadata decoded, with a window whose
   * from is offset + 1, whose to is min(offset + limit, total) and whose last
   * page is the smallest whose end reaches the total.
   */
  lemma IndexPage(page: int, limit: int, selected: seq<Category>, w: World)
    requires limit > 0 && page >= 1
    ensures var offset := (page - 1) * limit;
      && offset >= 0
      && PageWindow(page, limit, |selected|).Ok?
      && var win := PageWindow(page, limit, |selected|).value;
      && win.from == offset + 1
      && win.to == Min(offset + limit, |selected|)
      && (win.lastPage - 1) * limit < |selected| <= win.lastPage * limit
      && Listing(page, limit, selected, w) ==
           Success(IndexData(DecodedAll(PageRows(selected, offset, limit), w.jsonDecode), win), "Categories retrieved successfully", 200)
      && (offset >= |selected| ==> PageRows(selected, offset, limit) == [])
  {
    assert (page - 1) * limit >= 0 by { assert page - 1 >= 0; }
  }

  /**
   * The listing's refusals: a negative limit, or a page below 1 with a
   * positive limit (a negative offset), is refused by the database with a
   * 500; a limit of 0 ends in the uncaught division error of `ceil`.
   */
  lemma IndexRefused(page: int, limit: int, selected: seq<Category>, w: World)
    ensures limit < 0 || (limit > 0 && page < 1) ==>
      Listing(page, limit, selected, w) == Error("Failed to retrieve categories: " + w.dbMessage, 500, [])
    ensures limit == 0 ==> Listing(page, limit, selected, w) == Fatal("DivisionByZeroError")
  {
    if limit > 0 && page < 1 {
      assert (page - 1) * limit < 0 by { assert page - 1 < 0; }
    }
  }

  // ---------------------------------------------------------------------------
  // index and the repeated `:search` marker

  /** A statement text that holds the named marker `m` at two places. */
  ghost predicate MarkerRepeated(sql: string, m: string) {
    exists i, j :: 0 <= i < j && InfixAt(sql, m, i) && InfixAt(sql, m, j)
  }

  /** An infix keeps its place, shifted, inside a longer text. */
  lemma InfixShift(a: string, b: string, c: string, sub: string, k: int)
    requires InfixAt(b, sub, k)
    ensures InfixAt(a + b + c, sub, |a| + k)
  {
    assert (a + b + c)[|a| + k..|a| + k + |sub|] == b[k..k + |sub|];
  }

  /** The search condition names `:search` twice. */
  lemma ClauseRepeatsMarker()
    ensures MarkerRepeated(SearchClause, SearchMarker)
  {
    var a1 := " AND (name LIKE ";
    var a2 := a1 + SearchMarker + " OR description LIKE ";
    assert InfixAt(SearchMarker, SearchMarker, 0);
    InfixShift(a1, SearchMarker, " OR description LIKE " + SearchMarker + ")", SearchMarker, 0);
    assert SearchClause == a1 + SearchMarker + (" OR description LIKE " + SearchMarker + ")");
    InfixShift(a2, SearchMarker, ")", SearchMarker, 0);
    assert SearchClause == a2 + SearchMarker + ")";
    assert InfixAt(SearchClause, SearchMarker, |a1|) && InfixAt(SearchClause, SearchMarker, |a2|) && |a1| < |a2|;
  }

  /** A marker repeated in a middle part is repeated in the whole text. */
  lemma RepeatedInside(a: string, b: string, c: string, m: string)
    requires MarkerRepeated(b, m)
    ensures MarkerRepeated(a + b + c, m)
  {
    var i, j :| 0 <= i < j && InfixAt(b, m, i) && InfixAt(b, m, j);
    InfixShift(a, b, c, m, i);
    InfixShift(a, b, c, m, j);
    assert InfixAt(a + b + c, m, |a| + i) && InfixAt(a + b + c, m, |a| + j);
  }

  /** Regrouping a concatenation of four texts. */
  lemma Regroup(h: string, p: string, c: string, t: string)
    ensures h + (p + c + t) == (h + p) + c + t
  {
  }

  /** With a search, a query made of any head and the tail names `:search` twice. */
  lemma HeadedTailRepeats(h: string, f: ParentFilter, search: Option<string>)
    requires search.Some?
    ensures MarkerRepeated(h + IndexTail(f, search), SearchMarker)
  {
    ClauseRepeatsMarker();
    RepeatedInside(h + TailBefore(f), SearchClause, OrderBy, SearchMarker);
    Regroup(h, TailBefore(f), SearchClause, OrderBy);
  }

  /** With a search, the count query and the page query both name `:search` twice. */
  lemma SearchMarkerTwice(f: ParentFilter, search: Option<string>)
    requires search.Some?
    ensures MarkerRepeated(IndexCountSql(f, search), SearchMarker)
    ensures MarkerRepeated(IndexSql(f, search), SearchMarker)
  {
    HeadedTailRepeats("SELECT COUNT(*) as total", f, search);
    HeadedTailRepeats("SELECT *", f, search);
  }

  /**
   * index as written on the default MySQL connection: the connection turns
   * emulated prepares off, and a native prepare refuses a named marker used
   * twice, so the count query of every search fails and the catch answers
   * 500; without a search it is the listing.
   */
  function IndexAsWritten(query: PhpArray, w: World, rows: seq<Category>): Response {
    if SearchOf(query).Some? then Error("Failed to retrieve categories: " + w.dbMessage, 500, [])
    else IndexOutcome(query, w, rows)
  }

  /**
   * As written, a truthy `search` always gets the 500, because both queries
   * then name `:search` twice; any other request is answered by the listing.
   */
  lemma SearchRefusedAsWritten(query: PhpArray, w: World, rows: seq<Category>)
    ensures SearchOf(query).Some? <==> Truthy(Coalesce(query, "search", VNull))
    ensures SearchOf(query).Some? ==>
      && MarkerRepeated(IndexCountSql(ParentFilterOf(query), SearchOf(query)), SearchMarker)
      && IndexAsWritten(query, w, rows) == Error("Failed to retrieve categories: " + w.dbMessage, 500, [])
    ensures SearchOf(query).None? ==> IndexAsWritten(query, w, rows) == IndexOutcome(query, w, rows)
  {
    if SearchOf(query).Some? {
      SearchMarkerTwice(ParentFilterOf(query), SearchOf(query));
    }
  }

  /**
   * The listing with the search bound once per use, as intended: a search
   * with a positive limit and a page from 1 on is a 200 whose rows are the
   * page of the selected rows, every one of which holds the search text in
   * its name or its description.
   */
  lemma SearchedListing(query: PhpArray, w: World, rows: seq<Category>)
    requires Truthy(Coalesce(query, "search", VNull)) && LimitOf(query) > 0 && PageOf(query) >= 1
    ensures var selected := Selected(rows, ParentFilterOf(query), SearchOf(query));
      var offset := (PageOf(query) - 1) * LimitOf(query);
      && offset >= 0
      && PageWindow(PageOf(query), LimitOf(query), |selected|).Ok?
      && IndexOutcome(query, w, rows) ==
           Success(IndexData(DecodedAll(PageRows(selected, offset, LimitOf(query)), w.jsonDecode),
                             PageWindow(PageOf(query), LimitOf(query), |selected|).value),
                   "Categories retrieved successfully", 200)
      && forall x :: x in selected ==> Like(x.name, SearchOf(query).value) || Like(x.description, SearchOf(query).value)
  {
    SearchSpec(query, rows);
    IndexPage(PageOf(query), LimitOf(query), Selected(rows, ParentFilterOf(query), SearchOf(query)), w);
  }

  /** fetchAll into an array, then the decoding foreach over it. */
  method FetchDecoded(shown: seq<Category>, jsonDecode: string -> Value) returns (fetched: seq<Category>)
    ensures fetched == DecodedAll(shown, jsonDecode)
  {
    var a := new Category[|shown|](i requires 0 <= i < |shown| => shown[i]);
    DecodeRows(a, jsonDecode);
    fetched := a[..];
  }


  // ---------------------------------------------------------------------------
  // The table

  /**
   * The table's constraints: the primary key (ids distinct, each below the
   * next AUTO_INCREMENT value) and the unique index on `slug`.
   */
  predicate TableOk(t: Table) {
    && (forall i :: 0 <= i < |t.rows| ==> t.rows[i].id < t.nextId)
    && (forall i, j :: 0 <= i < j < |t.rows| ==> t.rows[i].id != t.rows[j].id && t.rows[i].slug != t.rows[j].slug)
  }

  /** `SELECT * FROM categories WHERE id = ?`: the first row with the id. */
  function FindById(rows: seq<Category>, id: int): (r: Option<Category>)
    ensures r.Some? <==> exists i :: 0 <= i < |rows| && rows[i].id == id
    ensures r.Some? ==> r.value in rows && r.value.id == id
  {
    if rows == [] then None
    else if rows[0].id == id then Some(rows[0])
    else
      assert forall i :: 1 <= i < |rows| ==> rows[1..][i - 1] == rows[i];
      FindById(rows[1..], id)
  }

  /** A row other than `except` holds the slug (`SELECT id FROM categories WHERE slug = ? [AND id != ?]`). */
  predicate SlugHeld(rows: seq<Category>, slug: Value, except: Option<int>) {
    exists i :: 0 <= i < |rows| && rows[i].slug == slug && (except.None? || rows[i].id != except.value)
  }

  /** The slug a uniqueness check binds as written: the raw request value, as text. */
  function RawSlug(data: PhpArray): Value {
    VStr(Interpolated(Coalesce(data, "slug", VNull)))
  }

  /** The slug that is stored: the request's slug sanitized; none when it is not a string (the TypeError). */
  function CleanSlug(data: PhpArray, strip: TagStripper): Option<Value> {
    match Coalesce(data, "slug", VNull)
    case VStr(s) => Some(VStr(SanitizeString(s, strip)))
    case _ => None
  }

  /** The answer that carries a row back, metadata decoded. */
  function RowAnswer(c: Category, w: World, message: string, status: int): Response {
    Success(VArr(RowArray(Decoded(c, w.jsonDecode))), message, status)
  }

  // ---------------------------------------------------------------------------
  // store

  const StoreFields: seq<string> := ["name", "slug"]

  /** A text field sanitized, or null when it is not set: none when it is set to a non-string. */
  function OptionalText(data: PhpArray, f: string, strip: TagStripper): Option<Value> {
    if !IsSet(data, f) then Some(VNull)
    else match data.vals[f]
      case VStr(s) => Some(VStr(SanitizeString(s, strip)))
      case _ => None
  }

  /**
   * `$categoryData`: name, slug and description sanitized, parent_id
   * defaulting to null, sort_order to 0, is_active to true, the metadata
   * encoded when set, both timestamps now; none on a TypeError.
   */
  function NewRow(data: PhpArray, w: World, id: int): Option<Category> {
    var name := Coalesce(data, "name", VNull);
    var slug := Coalesce(data, "slug", VNull);
    var description := OptionalText(data, "description", w.strip);
    if !name.VStr? || !slug.VStr? || description.None? then None
    else Some(Category(
      id, VStr(SanitizeString(name.s, w.strip)), VStr(SanitizeString(slug.s, w.strip)), description.value,
      Coalesce(data, "parent_id", VNull), Coalesce(data, "sort_order", VInt(0)), Coalesce(data, "is_active", VBool(true)),
      if IsSet(data, "metadata") then VStr(w.encode(data.vals["metadata"])) else VNull,
      w.now, w.now))
  }

  /**
   * After the slug check: the row built, then the insert, which the unique
   * index refuses for a held slug. The refused insert has already taken its
   * AUTO_INCREMENT value (InnoDB does not give it back), so the next id moves
   * on while the rows stay as they were.
   */
  function StoreInsert(built: Option<Category>, w: World, t: Table): (Response, Table) {
    match built
    case None => (TypeError, t)
    case Some(row) =>
      if SlugHeld(t.rows, row.slug, None) then (Error("Failed to create category: " + w.dbMessage, 500, []), Table(t.rows, t.nextId + 1))
      else (RowAnswer(row, w, "Category created successfully", 201), Table(t.rows + [row], t.nextId + 1))
  }

  /** store: validation, then the uniqueness check on the slug that will be stored, then the insert. */
  function StoreOutcome(data: PhpArray, w: World, t: Table): (Response, Table) {
    var errors := RequiredErrors(data, StoreFields);
    if errors != [] then (Error("Validation failed", 400, errors), t)
    else match CleanSlug(data, w.strip)
      case None => (TypeError, t)
      case Some(slug) =>
        if SlugHeld(t.rows, slug, None) then (Error("Category slug must be unique", 400, []), t)
        else StoreInsert(NewRow(data, w, t.nextId), w, t)
  }

  /** store as written: the uniqueness check looks up the raw request slug. */
  function StoreAsWritten(data: PhpArray, w: World, t: Table): (Response, Table) {
    var errors := RequiredErrors(data, StoreFields);
    if errors != [] then (Error("Validation failed", 400, errors), t)
    else if SlugHeld(t.rows, RawSlug(data), None) then (Error("Category slug must be unique", 400, []), t)
    else StoreInsert(NewRow(data, w, t.nextId), w, t)
  }

  /**
   * store's refusals, the table unchanged: a 400 listing the missing fields
   * when name or slug is missing or empty; a TypeError for a slug that is
   * not a string; a 400 when another row holds the slug.
   */
  lemma StoreRefusals(data: PhpArray, w: World, t: Table)
    ensures RequiredErrors(data, StoreFields) == [] <==> !MissingOrEmpty(data, "name") && !MissingOrEmpty(data, "slug")
    ensures RequiredErrors(data, StoreFields) != [] ==>
      StoreOutcome(data, w, t) == (Error("Validation failed", 400, RequiredErrors(data, StoreFields)), t)
    ensures RequiredErrors(data, StoreFields) == [] && !Coalesce(data, "slug", VNull).VStr? ==>
      StoreOutcome(data, w, t) == (TypeError, t)
    ensures RequiredErrors(data, StoreFields) == [] && CleanSlug(data, w.strip).Some? && SlugHeld(t.rows, CleanSlug(data, w.strip).value, None) ==>
      StoreOutcome(data, w, t) == (Error("Category slug must be unique", 400, []), t)
  {
    RequiredErrorsSpec(data, StoreFields);
  }

  /**
   * The row store builds from string text: the sanitized name and slug, the
   * sanitized description or null, the request's parent_id, sort_order and
   * is_active or the defaults null, 0 and true, the encoded metadata or
   * null, and now as both timestamps.
   */
  lemma NewRowSpec(data: PhpArray, w: World, id: int)
    requires Coalesce(data, "name", VNull).VStr? && Coalesce(data, "slug", VNull).VStr?
    requires !IsSet(data, "description") || data.vals["description"].VStr?
    ensures NewRow(data, w, id).Some?
    ensures var row := NewRow(data, w, id).value;
      && row.id == id
      && row.name == VStr(SanitizeString(data.vals["name"].s, w.strip))
      && row.slug == VStr(SanitizeString(data.vals["slug"].s, w.strip))
      && row.description == (if IsSet(data, "description") then VStr(SanitizeString(data.vals["description"].s, w.strip)) else VNull)
      && row.parentId == (if IsSet(data, "parent_id") then data.vals["parent_id"] else VNull)
      && row.sortOrder == (if IsSet(data, "sort_order") then data.vals["sort_order"] else VInt(0))
      && row.isActive == (if IsSet(data, "is_active") then data.vals["is_active"] else VBool(true))
      && row.metadata == (if IsSet(data, "metadata") then VStr(w.encode(data.vals["metadata"])) else VNull)
      && row.createdAt == w.now && row.updatedAt == w.now
  {
  }

  /** The built row carries the id it is given. */
  lemma NewRowId(data: PhpArray, w: World, id: int)
    ensures NewRow(data, w, id).Some? ==> NewRow(data, w, id).value.id == id
  {
  }

  /**
   * store's insert: with name and slug given as strings, a description
   * unset or a string, and the sanitized slug free, the table gains the
   * built row at its end under the next id, and the answer is a 201
   * carrying that row.
   */
  lemma StoreCreates(data: PhpArray, w: World, t: Table)
    requires RequiredErrors(data, StoreFields) == []
    requires Coalesce(data, "name", VNull).VStr? && Coalesce(data, "slug", VNull).VStr?
    requires !IsSet(data, "description") || data.vals["description"].VStr?
    requires !SlugHeld(t.rows, VStr(SanitizeString(Coalesce(data, "slug", VNull).s, w.strip)), None)
    ensures NewRow(data, w, t.nextId).Some?
    ensures var row := NewRow(data, w, t.nextId).value;
      StoreOutcome(data, w, t) == (RowAnswer(row, w, "Category created successfully", 201), Table(t.rows + [row], t.nextId + 1))
  {
    NewRowSpec(data, w, t.nextId);
    StoreReachesInsert(data, w, t);
    InsertFree(NewRow(data, w, t.nextId).value, w, t);
  }

  /** With the fields valid and the sanitized slug free, store comes to the insert. */
  lemma StoreReachesInsert(data: PhpArray, w: World, t: Table)
    requires RequiredErrors(data, StoreFields) == [] && Coalesce(data, "slug", VNull).VStr?
    requires !SlugHeld(t.rows, VStr(SanitizeString(Coalesce(data, "slug", VNull).s, w.strip)), None)
    ensures StoreOutcome(data, w, t) == StoreInsert(NewRow(data, w, t.nextId), w, t)
  {
  }

  /** A row whose slug is free is inserted. */
  lemma InsertFree(row: Category, w: World, t: Table)
    requires !SlugHeld(t.rows, row.slug, None)
    ensures StoreInsert(Some(row), w, t) == (RowAnswer(row, w, "Category created successfully", 201), Table(t.rows + [row], t.nextId + 1))
  {
  }

  /** The unique index refuses a row whose slug is held: a 500, the rows as they were, the id used up. */
  lemma InsertHeld(row: Category, w: World, t: Table)
    requires SlugHeld(t.rows, row.slug, None)
    ensures StoreInsert(Some(row), w, t) == (Error("Failed to create category: " + w.dbMessage, 500, []), Table(t.rows, t.nextId + 1))
  {
  }

  /** The corrected store never runs into the unique index: it answers 400 before the insert could fail. */
  lemma StoreNeverViolatesIndex(data: PhpArray, w: World, t: Table)
    ensures StoreOutcome(data, w, t).0 != Error("Failed to create category: " + w.dbMessage, 500, [])
  {
    var failed := Error("Failed to create category: " + w.dbMessage, 500, []);
    assert Error("Validation failed", 400, RequiredErrors(data, StoreFields)) != failed by {
      assert Error("Validation failed", 400, RequiredErrors(data, StoreFields)).status == 400;
    }
    if RequiredErrors(data, StoreFields) == [] && CleanSlug(data, w.strip).Some? && !SlugHeld(t.rows, CleanSlug(data, w.strip).value, None) {
      assert StoreOutcome(data, w, t) == StoreInsert(NewRow(data, w, t.nextId), w, t);
      match NewRow(data, w, t.nextId)
      case None =>
      case Some(row) =>
        assert row.slug == CleanSlug(data, w.strip).value;
        assert RowAnswer(row, w, "Category created successfully", 201).status == 201;
    }
  }

  /**
   * The raw slug check misses a slug that only collides once sanitized
   * (" tech" or "<b>tech</b>" against a stored "tech"): as written, store
   * lets it through to the insert, which the unique index refuses, so the
   * client gets a 500 where the corrected check answers 400.
   */
  lemma StoreRawSlugCheck(data: PhpArray, w: World, t: Table)
    requires RequiredErrors(data, StoreFields) == []
    requires Coalesce(data, "name", VNull).VStr? && Coalesce(data, "slug", VNull).VStr?
    requires !IsSet(data, "description") || data.vals["description"].VStr?
    requires !SlugHeld(t.rows, RawSlug(data), None)
    requires SlugHeld(t.rows, VStr(SanitizeString(Coalesce(data, "slug", VNull).s, w.strip)), None)
    ensures StoreAsWritten(data, w, t) == (Error("Failed to create category: " + w.dbMessage, 500, []), Table(t.rows, t.nextId + 1))
    ensures StoreOutcome(data, w, t) == (Error("Category slug must be unique", 400, []), t)
  {
    NewRowSpec(data, w, t.nextId);
    var row := NewRow(data, w, t.nextId).value;
    assert CleanSlug(data, w.strip) == Some(row.slug);
    assert SlugHeld(t.rows, row.slug, None);
    assert StoreAsWritten(data, w, t) == StoreInsert(Some(row), w, t);
    InsertHeld(row, w, t);
  }

  /** A slug with a leading space is stored without it: " a" sanitizes to "a" whatever strip_tags does to "a", if it leaves it. */
  lemma LeadingSpaceSlug(strip: TagStripper)
    requires strip("a") == "a"
    ensures SanitizeString(" a", strip) == "a"
  {
    SpacedLetter('a', strip);
    assert [' ', 'a'] == " a" && ['a'] == "a";
  }

  /** A space, then a letter that strip_tags leaves alone, sanitizes to the letter. */
  lemma SpacedLetter(c: char, strip: TagStripper)
    requires 'a' <= c <= 'z' && strip([c]) == [c]
    ensures SanitizeString([' ', c], strip) == [c]
  {
    TrimSpaced(c);
    EscapeLetter(c);
  }

  /** trim drops the space before a letter. */
  lemma TrimSpaced(c: char)
    requires 'a' <= c <= 'z'
    ensures Trim([' ', c]) == [c]
  {
    var s := [' ', c];
    assert s[1..] == [c];
    assert TrimLeft(s) == [c];
    assert TrimRight([c]) == [c];
  }

  /** htmlspecialchars leaves a letter alone. */
  lemma EscapeLetter(c: char)
    requires 'a' <= c <= 'z'
    ensures HtmlEscape([c]) == [c]
  {
    assert [c][1..] == [];
    assert HtmlEscape([c]) == EscapeChar(c) + HtmlEscape([]);
  }

  /** The request of the example: name "A", slug " a". */
  const SpacedRequest: PhpArray := Put(Put(EmptyMap(), "name", VStr("A")), "slug", VStr(" a"))

  /** The table of the example: one category, slug "a". */
  const OneCategory := Table([Category(1, VStr("A"), VStr("a"), VNull, VNull, VInt(0), VBool(true), VNull, 0, 0)], 2)

  /** The example request passes validation with string name and slug and no description. */
  lemma SpacedRequestFields()
    ensures RequiredErrors(SpacedRequest, StoreFields) == []
    ensures Coalesce(SpacedRequest, "name", VNull) == VStr("A") && Coalesce(SpacedRequest, "slug", VNull) == VStr(" a")
    ensures !IsSet(SpacedRequest, "description")
  {
    assert SpacedRequest.vals == map["name" := VStr("A"), "slug" := VStr(" a")];
    assert !IsEmpty(VStr("A")) && !IsEmpty(VStr(" a"));
    RequiredErrorsSpec(SpacedRequest, StoreFields);
  }

  /**
   * The finding on concrete values: with a category whose slug is "a", a
   * store request named "A" with slug " a" passes the raw check and fails
   * at the unique index, a 500, where the corrected check answers 400.
   */
  lemma RawSlugExample(w: World)
    requires w.strip("a") == "a"
    ensures StoreAsWritten(SpacedRequest, w, OneCategory) ==
      (Error("Failed to create category: " + w.dbMessage, 500, []), Table(OneCategory.rows, OneCategory.nextId + 1))
    ensures StoreOutcome(SpacedRequest, w, OneCategory) == (Error("Category slug must be unique", 400, []), OneCategory)
  {
    SpacedRequestFields();
    OneCategorySlugs(w.strip);
    assert RawSlug(SpacedRequest) == VStr(" a");
    StoreRawSlugCheck(SpacedRequest, w, OneCategory);
  }

  /** In the example table " a" is free and its sanitized form is held. */
  lemma OneCategorySlugs(strip: TagStripper)
    requires strip("a") == "a"
    ensures !SlugHeld(OneCategory.rows, VStr(" a"), None)
    ensures SlugHeld(OneCategory.rows, VStr(SanitizeString(" a", strip)), None)
  {
    LeadingSpaceSlug(strip);
    var r := OneCategory.rows[0];
    assert OneCategory.rows == [r] && r.slug == VStr("a");
    assert |" a"| == 2;
    SlugHeldSingle(r, VStr(" a"));
    SlugHeldSingle(r, VStr("a"));
  }

  /** In a table of one row, a slug is held exactly when it is that row's. */
  lemma SlugHeldSingle(r: Category, slug: Value)
    ensures SlugHeld([r], slug, None) <==> r.slug == slug
  {
    if r.slug == slug {
      assert [r][0].slug == slug;
    }
  }

  /** Both forms of store keep the table's constraints. */
  lemma StoreKeepsTable(data: PhpArray, w: World, t: Table)
    requires TableOk(t)
    ensures TableOk(StoreOutcome(data, w, t).1)
    ensures TableOk(StoreAsWritten(data, w, t).1)
  {
    NewRowId(data, w, t.nextId);
    InsertKeepsTable(NewRow(data, w, t.nextId), w, t);
  }

  lemma InsertKeepsTable(built: Option<Category>, w: World, t: Table)
    requires TableOk(t) && (built.Some? ==> built.value.id == t.nextId)
    ensures TableOk(StoreInsert(built, w, t).1)
  {
    if built.Some? && !SlugHeld(t.rows, built.value.slug, None) {
      AppendKeepsTable(t, built.value);
    }
  }

  /** A row under the next id with a free slug, appended, keeps the constraints. */
  lemma AppendKeepsTable(t: Table, row: Category)
    requires TableOk(t) && row.id == t.nextId && !SlugHeld(t.rows, row.slug, None)
    ensures TableOk(Table(t.rows + [row], t.nextId + 1))
  {
    var rows := t.rows + [row];
    forall i, j | 0 <= i < j < |rows| ensures rows[i].id != rows[j].id && rows[i].slug != rows[j].slug {
      if j == |t.rows| {
        assert rows[i] == t.rows[i];
      }
    }
  }

  // ---------------------------------------------------------------------------
  // update

  const UpdateFields: seq<string> := ["name", "slug", "description", "parent_id", "sort_order", "is_active"]

  /** `in_array($field, ['name', 'slug', 'description'])`: the fields that are sanitized. */
  predicate IsTextField(f: string) {
    f == "name" || f == "slug" || f == "description"
  }

  /** A field can be copied: it is unset, or it is not a text field, or it holds a string. */
  predicate Copyable(data: PhpArray, f: string) {
    !IsSet(data, f) || !IsTextField(f) || data.vals[f].VStr?
  }

  /** The value a set field is copied as: text sanitized, anything else as sent. */
  function CopiedValue(data: PhpArray, strip: TagStripper, f: string): Value
    requires IsSet(data, f)
  {
    if IsTextField(f) && data.vals[f].VStr? then VStr(SanitizeString(data.vals[f].s, strip)) else data.vals[f]
  }

  /** One turn of the foreach: a set field is copied; none on a TypeError. */
  function CopyField(acc: PhpArray, data: PhpArray, strip: TagStripper, f: string): Option<PhpArray> {
    if !IsSet(data, f) then Some(acc)
    else if !Copyable(data, f) then None
    else Some(Put(acc, f, CopiedValue(data, strip, f)))
  }

  /** `$updateData` after the foreach over the given fields, starting from `updated_at`. */
  function UpdateFold(data: PhpArray, strip: TagStripper, now: int, fields: seq<string>): Option<PhpArray>
    decreases |fields|
  {
    if fields == [] then Some(Put(EmptyMap(), "updated_at", VInt(now)))
    else match UpdateFold(data, strip, now, fields[..|fields| - 1])
      case None => None
      case Some(acc) => CopyField(acc, data, strip, fields[|fields| - 1])
  }

  /** The update data over fields: `updated_at`, and each set field copied. */
  ghost predicate Carries(u: PhpArray, data: PhpArray, strip: TagStripper, now: int, fields: seq<string>) {
    && (forall k :: k in u.vals <==> k == "updated_at" || (k in fields && IsSet(data, k)))
    && "updated_at" in u.vals && u.vals["updated_at"] == VInt(now)
    && (forall k :: k in fields && IsSet(data, k) ==> k in u.vals && u.vals[k] == CopiedValue(data, strip, k))
  }

  /**
   * The foreach: a TypeError exactly when one of the fields is a set text
   * field holding a non-string; otherwise the data holds `updated_at` as now
   * and exactly the set fields, each copied.
   */
  lemma {:induction false} UpdateFoldSpec(data: PhpArray, strip: TagStripper, now: int, fields: seq<string>)
    requires "updated_at" !in fields
    ensures UpdateFold(data, strip, now, fields).None? <==> exists i :: 0 <= i < |fields| && !Copyable(data, fields[i])
    ensures UpdateFold(data, strip, now, fields).Some? ==> Carries(UpdateFold(data, strip, now, fields).value, data, strip, now, fields)
    decreases |fields|
  {
    if fields != [] {
      var front := fields[..|fields| - 1];
      var f := fields[|fields| - 1];
      assert fields == front + [f];
      UpdateFoldSpec(data, strip, now, front);
      if UpdateFold(data, strip, now, front).Some? {
        CopyFieldSpec(UpdateFold(data, strip, now, front).value, data, strip, now, front, f);
      } else {
        var i :| 0 <= i < |front| && !Copyable(data, front[i]);
        assert fields[i] == front[i];
      }
      if exists i :: 0 <= i < |fields| && !Copyable(data, fields[i]) {
        var i :| 0 <= i < |fields| && !Copyable(data, fields[i]);
        if i < |front| {
          assert front[i] == fields[i];
        }
      }
    } else {
      PutGet(EmptyMap<Value>(), "updated_at", VInt(now));
    }
  }

  /** One turn of the foreach keeps the description of the copied fields. */
  lemma CopyFieldSpec(acc: PhpArray, data: PhpArray, strip: TagStripper, now: int, pre: seq<string>, f: string)
    requires f != "updated_at"
    requires Carries(acc, data, strip, now, pre)
    ensures CopyField(acc, data, strip, f).None? <==> !Copyable(data, f)
    ensures CopyField(acc, data, strip, f).Some? ==> Carries(CopyField(acc, data, strip, f).value, data, strip, now, pre + [f])
  {
    if IsSet(data, f) && Copyable(data, f) {
      var v := CopiedValue(data, strip, f);
      assert Put(acc, f, v).vals == acc.vals[f := v];
    }
  }

  /** `$updateData`: the foreach, then the metadata encoded when set. */
  function UpdateData(data: PhpArray, w: World): Option<PhpArray> {
    match UpdateFold(data, w.strip, w.now, UpdateFields)
    case None => None
    case Some(u) =>
      if IsSet(data, "metadata") then Some(Put(u, "metadata", VStr(w.encode(data.vals["metadata"])))) else Some(u)
  }

  /** The update data prepared for update: `updated_at`, the set allowed fields copied, the metadata encoded when set. */
  lemma UpdateDataSpec(data: PhpArray, w: World)
    ensures UpdateData(data, w).None? <==> exists i :: 0 <= i < |UpdateFields| && !Copyable(data, UpdateFields[i])
    ensures UpdateData(data, w).Some? ==>
      var u := UpdateData(data, w).value;
      && (forall k :: k in u.vals <==> k == "updated_at" || (k in UpdateFields && IsSet(data, k)) || (k == "metadata" && IsSet(data, k)))
      && "updated_at" in u.vals && u.vals["updated_at"] == VInt(w.now)
      && (forall k :: k in UpdateFields && IsSet(data, k) ==> u.vals[k] == CopiedValue(data, w.strip, k))
      && (IsSet(data, "metadata") ==> u.vals["metadata"] == VStr(w.encode(data.vals["metadata"])))
  {
    UpdateFoldSpec(data, w.strip, w.now, UpdateFields);
    match UpdateFold(data, w.strip, w.now, UpdateFields)
    case None =>
    case Some(u) =>
      if IsSet(data, "metadata") {
        var v := VStr(w.encode(data.vals["metadata"]));
        assert Put(u, "metadata", v).vals == u.vals["metadata" := v];
        assert "metadata" !in UpdateFields;
      }
  }

  /** The foreach of update, then the metadata. */
  method BuildUpdateData(data: PhpArray, w: World) returns (r: Option<PhpArray>)
    ensures r == UpdateData(data, w)
  {
    var acc: PhpArray := Put(EmptyMap(), "updated_at", VInt(w.now));
    var i := 0;
    while i < |UpdateFields|
      invariant 0 <= i <= |UpdateFields|
      invariant UpdateFold(data, w.strip, w.now, UpdateFields[..i]) == Some(acc)
    {
      var field := UpdateFields[i];
      UpdateFoldNext(data, w.strip, w.now, i);
      if IsSet(data, field) {
        if IsTextField(field) {
          if !data.vals[field].VStr? {
            UpdateFoldNone(data, w, i);
            return None;
          }
          acc := Put(acc, field, VStr(SanitizeString(data.vals[field].s, w.strip)));
        } else {
          acc := Put(acc, field, data.vals[field]);
        }
      }
      i := i + 1;
    }
    assert UpdateFields[..i] == UpdateFields;
    r := Some(acc);
    if IsSet(data, "metadata") {
      r := Some(Put(acc, "metadata", VStr(w.encode(data.vals["metadata"]))));
    }
  }

  /** The foreach over one more field is one more turn. */
  lemma UpdateFoldNext(data: PhpArray, strip: TagStripper, now: int, i: nat)
    requires i < |UpdateFields|
    ensures UpdateFold(data, strip, now, UpdateFields[..i + 1]) ==
      match UpdateFold(data, strip, now, UpdateFields[..i])
      case None => None
      case Some(acc) => CopyField(acc, data, strip, UpdateFields[i])
  {
    assert UpdateFields[..i + 1][..i] == UpdateFields[..i];
  }

  /** Once a turn raises the TypeError, the whole foreach does. */
  lemma UpdateFoldNone(data: PhpArray, w: World, i: nat)
    requires i < |UpdateFields| && !Copyable(data, UpdateFields[i])
    ensures UpdateData(data, w).None?
  {
    UpdateFoldSpec(data, w.strip, w.now, UpdateFields);
  }

  /** `$a[$k]` written by the update when the data holds the column, else the old value. */
  function Pick(u: PhpArray, k: string, before: Value): Value {
    if k in u.vals then u.vals[k] else before
  }

  /** `UPDATE categories SET ...` on one row. */
  function ApplyUpdate(c: Category, u: PhpArray): Category {
    c.(name := Pick(u, "name", c.name), slug := Pick(u, "slug", c.slug), description := Pick(u, "description", c.description),
       parentId := Pick(u, "parent_id", c.parentId), sortOrder := Pick(u, "sort_order", c.sortOrder),
       isActive := Pick(u, "is_active", c.isActive), metadata := Pick(u, "metadata", c.metadata),
       updatedAt := if "updated_at" in u.vals && u.vals["updated_at"].VInt? then u.vals["updated_at"].i else c.updatedAt)
  }

  /** `UPDATE categories SET ... WHERE id = ?`. */
  function UpdateRows(rows: seq<Category>, id: int, u: PhpArray): (r: seq<Category>)
    ensures |r| == |rows|
  {
    seq(|rows|, i requires 0 <= i < |rows| => if rows[i].id == id then ApplyUpdate(rows[i], u) else rows[i])
  }

  /**
   * After the slug check: the update data (a TypeError for non-string
   * text), then the statement with the given WHERE marker, which PDO refuses
   * to prepare when it mixes markers and the unique index refuses for a slug
   * another row holds, a 500 either way; the answer carries the row as
   * updated.
   */
  function UpdateApply(m: D.WhereMarker, id: int, found: Category, data: PhpArray, w: World, t: Table): (Response, Table) {
    match UpdateData(data, w)
    case None => (TypeError, t)
    case Some(u) =>
      if !D.UpdatePrepares("categories", u.keys, "id", m) then (Error("Failed to update category: " + w.dbMessage, 500, []), t)
      else if "slug" in u.vals && SlugHeld(t.rows, u.vals["slug"], Some(id)) then
        (Error("Failed to update category: " + w.dbMessage, 500, []), t)
      else (RowAnswer(ApplyUpdate(found, u), w, "Category updated successfully", 200), Table(UpdateRows(t.rows, id, u), t.nextId))
  }

  /**
   * update, as corrected: 404 for an unknown id, then the uniqueness check
   * on the slug that will be stored, then the statement with a named WHERE
   * marker.
   */
  function UpdateOutcome(id: int, data: PhpArray, w: World, t: Table): (Response, Table) {
    match FindById(t.rows, id)
    case None => (Error("Category not found", 404, []), t)
    case Some(found) =>
      if !IsSet(data, "slug") then UpdateApply(D.Named, id, found, data, w, t)
      else match CleanSlug(data, w.strip)
        case None => (TypeError, t)
        case Some(slug) =>
          if SlugHeld(t.rows, slug, Some(id)) then (Error("Category slug must be unique", 400, []), t)
          else UpdateApply(D.Named, id, found, data, w, t)
  }

  /** update as written: the uniqueness check looks up the raw request slug, and the statement says `id = ?`. */
  function UpdateAsWritten(id: int, data: PhpArray, w: World, t: Table): (Response, Table) {
    match FindById(t.rows, id)
    case None => (Error("Category not found", 404, []), t)
    case Some(found) =>
      if IsSet(data, "slug") && SlugHeld(t.rows, RawSlug(data), Some(id)) then (Error("Category slug must be unique", 400, []), t)
      else UpdateApply(D.Positional, id, found, data, w, t)
  }

  /**
   * update's refusals, the table unchanged: a 404 for an id no row has; a
   * TypeError for a slug that is set but not a string; a 400 when another
   * row holds the sanitized slug.
   */
  lemma UpdateRefusals(id: int, data: PhpArray, w: World, t: Table)
    ensures (forall i :: 0 <= i < |t.rows| ==> t.rows[i].id != id) ==>
      UpdateOutcome(id, data, w, t) == (Error("Category not found", 404, []), t)
    ensures FindById(t.rows, id).Some? && IsSet(data, "slug") && !data.vals["slug"].VStr? ==>
      UpdateOutcome(id, data, w, t) == (TypeError, t)
    ensures FindById(t.rows, id).Some? && IsSet(data, "slug") && CleanSlug(data, w.strip).Some? &&
            SlugHeld(t.rows, CleanSlug(data, w.strip).value, Some(id)) ==>
      UpdateOutcome(id, data, w, t) == (Error("Category slug must be unique", 400, []), t)
  {
  }

  /** The slug check of the corrected update passes: no slug sent, or its sanitized form is free among the other rows. */
  predicate SlugFree(id: int, data: PhpArray, w: World, t: Table) {
    !IsSet(data, "slug") || (CleanSlug(data, w.strip).Some? && !SlugHeld(t.rows, CleanSlug(data, w.strip).value, Some(id)))
  }

  /** Past its checks, update comes to the statement. */
  lemma UpdateReachesApply(id: int, data: PhpArray, w: World, t: Table)
    requires FindById(t.rows, id).Some? && SlugFree(id, data, w, t)
    ensures UpdateOutcome(id, data, w, t) == UpdateApply(D.Named, id, FindById(t.rows, id).value, data, w, t)
  {
  }

  /** The update data never writes a slug the corrected check did not look up. */
  lemma WrittenSlug(id: int, data: PhpArray, w: World, t: Table)
    requires SlugFree(id, data, w, t) && UpdateData(data, w).Some?
    ensures !("slug" in UpdateData(data, w).value.vals && SlugHeld(t.rows, UpdateData(data, w).value.vals["slug"], Some(id)))
  {
    UpdateDataSpec(data, w);
    assert "slug" in UpdateFields;
    if IsSet(data, "slug") {
      assert UpdateData(data, w).value.vals["slug"] == CleanSlug(data, w.strip).value;
    }
  }

  /**
   * update's write: for a known id whose slug check passes and whose text
   * fields are strings, the answer is a 200 carrying the row as updated,
   * every other row is unchanged, and the rows with the id are updated.
   */
  lemma UpdateWrites(id: int, data: PhpArray, w: World, t: Table)
    requires FindById(t.rows, id).Some? && SlugFree(id, data, w, t)
    requires forall i :: 0 <= i < |UpdateFields| ==> Copyable(data, UpdateFields[i])
    ensures UpdateData(data, w).Some?
    ensures var u := UpdateData(data, w).value; var (r, t') := UpdateOutcome(id, data, w, t);
      && r == RowAnswer(ApplyUpdate(FindById(t.rows, id).value, u), w, "Category updated successfully", 200)
      && t'.nextId == t.nextId && |t'.rows| == |t.rows|
      && (forall i :: 0 <= i < |t.rows| && t.rows[i].id != id ==> t'.rows[i] == t.rows[i])
      && (forall i :: 0 <= i < |t.rows| && t.rows[i].id == id ==> t'.rows[i] == ApplyUpdate(t.rows[i], u))
  {
    UpdateDataSpec(data, w);
    UpdateReachesApply(id, data, w, t);
    WrittenSlug(id, data, w, t);
    UpdateBinding(data, w, "categories");
  }

  /** An allowed column of the update data: there exactly when the field is set, holding the copied value. */
  lemma UpdatedColumn(data: PhpArray, w: World, k: string)
    requires UpdateData(data, w).Some? && k in UpdateFields
    ensures forall before :: Pick(UpdateData(data, w).value, k, before) == if IsSet(data, k) then CopiedValue(data, w.strip, k) else before
  {
    UpdateDataSpec(data, w);
  }

  /** A text field that passed the foreach holds its sanitized string. */
  lemma CopiedText(data: PhpArray, w: World, i: nat)
    requires UpdateData(data, w).Some? && i < 3 && IsSet(data, UpdateFields[i])
    ensures data.vals[UpdateFields[i]].VStr?
    ensures CopiedValue(data, w.strip, UpdateFields[i]) == VStr(SanitizeString(data.vals[UpdateFields[i]].s, w.strip))
  {
    UpdateDataSpec(data, w);
    assert IsTextField(UpdateFields[i]);
  }

  /**
   * What update writes into the text columns: each of name, slug and
   * description that is set (present and not null) becomes the sanitized
   * string; otherwise the column keeps its value.
   */
  lemma UpdatedText(c: Category, data: PhpArray, w: World)
    requires UpdateData(data, w).Some?
    ensures var c' := ApplyUpdate(c, UpdateData(data, w).value);
      && (IsSet(data, "name") ==> data.vals["name"].VStr? && c'.name == VStr(SanitizeString(data.vals["name"].s, w.strip)))
      && (!IsSet(data, "name") ==> c'.name == c.name)
      && (IsSet(data, "slug") ==> data.vals["slug"].VStr? && c'.slug == VStr(SanitizeString(data.vals["slug"].s, w.strip)))
      && (!IsSet(data, "slug") ==> c'.slug == c.slug)
      && (IsSet(data, "description") ==>
            data.vals["description"].VStr? && c'.description == VStr(SanitizeString(data.vals["description"].s, w.strip)))
      && (!IsSet(data, "description") ==> c'.description == c.description)
  {
    var u := UpdateData(data, w).value;
    UpdatedColumn(data, w, UpdateFields[0]);
    UpdatedColumn(data, w, UpdateFields[1]);
    UpdatedColumn(data, w, UpdateFields[2]);
    if IsSet(data, "name") { CopiedText(data, w, 0); }
    if IsSet(data, "slug") { CopiedText(data, w, 1); }
    if IsSet(data, "description") { CopiedText(data, w, 2); }
  }

  /**
   * What update writes into the other columns: parent_id, sort_order and
   * is_active are copied when set and kept otherwise, so a null parent_id
   * leaves the parent as it was; the metadata is encoded when set;
   * updated_at becomes now; the id and created_at never change.
   */
  lemma UpdatedOthers(c: Category, data: PhpArray, w: World)
    requires UpdateData(data, w).Some?
    ensures var c' := ApplyUpdate(c, UpdateData(data, w).value);
      && c'.id == c.id && c'.createdAt == c.createdAt && c'.updatedAt == w.now
      && c'.parentId == (if IsSet(data, "parent_id") then data.vals["parent_id"] else c.parentId)
      && c'.sortOrder == (if IsSet(data, "sort_order") then data.vals["sort_order"] else c.sortOrder)
      && c'.isActive == (if IsSet(data, "is_active") then data.vals["is_active"] else c.isActive)
      && c'.metadata == (if IsSet(data, "metadata") then VStr(w.encode(data.vals["metadata"])) else c.metadata)
      && (Coalesce(data, "parent_id", VNull) == VNull ==> c'.parentId == c.parentId)
  {
    UpdateDataSpec(data, w);
    UpdatedColumn(data, w, UpdateFields[3]);
    UpdatedColumn(data, w, UpdateFields[4]);
    UpdatedColumn(data, w, UpdateFields[5]);
  }

  /** The corrected update never runs into the unique index. */
  lemma UpdateNeverViolatesIndex(id: int, data: PhpArray, w: World, t: Table)
    ensures UpdateOutcome(id, data, w, t).0 != Error("Failed to update category: " + w.dbMessage, 500, [])
  {
    var failed := Error("Failed to update category: " + w.dbMessage, 500, []);
    assert Error("Category not found", 404, []) != failed by { assert Error("Category not found", 404, []).status == 404; }
    assert Error("Category slug must be unique", 400, []) != failed by { assert Error("Category slug must be unique", 400, []).status == 400; }
    if FindById(t.rows, id).Some? && SlugFree(id, data, w, t) {
      UpdateReachesApply(id, data, w, t);
      if UpdateData(data, w).Some? {
        WrittenSlug(id, data, w, t);
        UpdateBinding(data, w, "categories");
        var u := UpdateData(data, w).value;
        assert RowAnswer(ApplyUpdate(FindById(t.rows, id).value, u), w, "Category updated successfully", 200).status == 200;
      }
    }
  }

  /**
   * The raw slug check of update misses a slug that only collides with
   * another row once sanitized: as written, the statement runs and the
   * unique index refuses it, a 500, where the corrected check answers 400.
   */
  lemma UpdateRawSlugCheck(id: int, data: PhpArray, w: World, t: Table)
    requires FindById(t.rows, id).Some? && IsSet(data, "slug") && data.vals["slug"].VStr?
    requires forall i :: 0 <= i < |UpdateFields| ==> Copyable(data, UpdateFields[i])
    requires !SlugHeld(t.rows, RawSlug(data), Some(id))
    requires SlugHeld(t.rows, VStr(SanitizeString(data.vals["slug"].s, w.strip)), Some(id))
    ensures UpdateAsWritten(id, data, w, t) == (Error("Failed to update category: " + w.dbMessage, 500, []), t)
    ensures UpdateOutcome(id, data, w, t) == (Error("Category slug must be unique", 400, []), t)
  {
    UpdateDataSpec(data, w);
    assert "slug" in UpdateFields;
    assert UpdateData(data, w).value.vals["slug"] == VStr(SanitizeString(data.vals["slug"].s, w.strip));
    assert UpdateAsWritten(id, data, w, t) == UpdateApply(D.Positional, id, FindById(t.rows, id).value, data, w, t);
  }

  /**
   * The keys of the update data are `updated_at`, the allowed fields and
   * `metadata`, all plain column names: as written, with `id = ?`, PDO
   * refuses the statement, and with a named marker it prepares it.
   */
  lemma UpdateBinding(data: PhpArray, w: World, table: string)
    requires table == "categories"
    ensures UpdateData(data, w).Some? ==> !D.UpdatePrepares(table, UpdateData(data, w).value.keys, "id", D.Positional)
    ensures UpdateData(data, w).Some? ==> D.UpdatePrepares(table, UpdateData(data, w).value.keys, "id", D.Named)
  {
    if UpdateData(data, w).Some? {
      var ks := UpdateData(data, w).value.keys;
      UpdateDataColumns(data, w);
      D.PositionalRefused(table, ks, "id");
      D.NamedPrepares(table, ks, "id");
    }
  }

  /** The update data names plain columns only, at least `updated_at`. */
  lemma UpdateDataColumns(data: PhpArray, w: World)
    requires UpdateData(data, w).Some?
    ensures D.UpdateNames("categories", UpdateData(data, w).value.keys, "id")
    ensures UpdateData(data, w).value.keys != []
  {
    UpdateFoldKeys(data, w.strip, w.now, UpdateFields);
    UpdateFoldNonEmpty(data, w.strip, w.now, UpdateFields);
    CategoryColumns();
    var ks := UpdateData(data, w).value.keys;
    forall k | k in ks ensures D.IsColumnName(k) {
      assert k == "updated_at" || k in UpdateFields || k == "metadata";
    }
  }

  /** The table, its key and every column the update data can hold are plain names. */
  lemma CategoryColumns()
    ensures D.IsColumnName("categories") && D.IsColumnName("id") && D.IsColumnName("updated_at") && D.IsColumnName("metadata")
    ensures forall k :: k in UpdateFields ==> D.IsColumnName(k)
  {
    assert D.IsColumnName("name") && D.IsColumnName("slug") && D.IsColumnName("description");
    assert D.IsColumnName("parent_id") && D.IsColumnName("sort_order") && D.IsColumnName("is_active");
  }

  /** The foreach only ever adds `updated_at` and the fields it goes over. */
  lemma {:induction false} UpdateFoldKeys(data: PhpArray, strip: TagStripper, now: int, fields: seq<string>)
    ensures UpdateFold(data, strip, now, fields).Some? ==>
      forall k :: k in UpdateFold(data, strip, now, fields).value.keys ==> k == "updated_at" || k in fields
    decreases |fields|
  {
    if fields != [] {
      var front := fields[..|fields| - 1];
      UpdateFoldKeys(data, strip, now, front);
      assert forall k :: k in front ==> k in fields;
    }
  }

  /** The foreach never drops a key, so `updated_at` keeps the list non-empty. */
  lemma {:induction false} UpdateFoldNonEmpty(data: PhpArray, strip: TagStripper, now: int, fields: seq<string>)
    ensures UpdateFold(data, strip, now, fields).Some? ==> UpdateFold(data, strip, now, fields).value.keys != []
    decreases |fields|
  {
    if fields != [] {
      UpdateFoldNonEmpty(data, strip, now, fields[..|fields| - 1]);
    }
  }

  /**
   * As written, every update that reaches the statement is refused: 500
   * "Failed to update category: …" and the table as it was. So update as
   * written never changes the table and never answers 200.
   */
  lemma UpdateRefusedAsWritten(id: int, data: PhpArray, w: World, t: Table)
    ensures UpdateAsWritten(id, data, w, t).1 == t
    ensures FindById(t.rows, id).Some? && UpdateData(data, w).Some? && !(IsSet(data, "slug") && SlugHeld(t.rows, RawSlug(data), Some(id))) ==>
      UpdateAsWritten(id, data, w, t) == (Error("Failed to update category: " + w.dbMessage, 500, []), t)
  {
    UpdateBinding(data, w, "categories");
  }

  /** Both forms of update keep the table's constraints. */
  lemma UpdateKeepsTable(id: int, data: PhpArray, w: World, t: Table)
    requires TableOk(t)
    ensures TableOk(UpdateOutcome(id, data, w, t).1)
    ensures TableOk(UpdateAsWritten(id, data, w, t).1)
  {
    if FindById(t.rows, id).Some? {
      var found := FindById(t.rows, id).value;
      ApplyKeepsTable(D.Named, id, found, data, w, t);
      ApplyKeepsTable(D.Positional, id, found, data, w, t);
      UpdateTables(id, found, data, w, t);
    }
  }

  /** Either form of update leaves the table as it was or as the statement left it. */
  lemma UpdateTables(id: int, found: Category, data: PhpArray, w: World, t: Table)
    requires FindById(t.rows, id) == Some(found)
    ensures UpdateOutcome(id, data, w, t).1 in {t, UpdateApply(D.Named, id, found, data, w, t).1}
    ensures UpdateAsWritten(id, data, w, t).1 in {t, UpdateApply(D.Positional, id, found, data, w, t).1}
  {
  }

  lemma ApplyKeepsTable(m: D.WhereMarker, id: int, found: Category, data: PhpArray, w: World, t: Table)
    requires TableOk(t)
    ensures TableOk(UpdateApply(m, id, found, data, w, t).1)
  {
    match UpdateData(data, w)
    case None =>
    case Some(u) =>
      if D.UpdatePrepares("categories", u.keys, "id", m) && !("slug" in u.vals && SlugHeld(t.rows, u.vals["slug"], Some(id))) {
        UpdateRowsKeepTable(t, id, u);
      }
  }

  /** An update whose slug, if any, no other row holds keeps the constraints. */
  lemma UpdateRowsKeepTable(t: Table, id: int, u: PhpArray)
    requires TableOk(t) && !("slug" in u.vals && SlugHeld(t.rows, u.vals["slug"], Some(id)))
    ensures TableOk(Table(UpdateRows(t.rows, id, u), t.nextId))
  {
    var rows := UpdateRows(t.rows, id, u);
    forall i | 0 <= i < |rows| ensures rows[i].id == t.rows[i].id {
    }
    forall i, j | 0 <= i < j < |rows| ensures rows[i].slug != rows[j].slug {
      if "slug" in u.vals && t.rows[i].id == id {
        assert t.rows[j].id != id && t.rows[j].slug != u.vals["slug"];
      } else if "slug" in u.vals && t.rows[j].id == id {
        assert t.rows[i].id != id && t.rows[i].slug != u.vals["slug"];
      }
    }
  }

  // ---------------------------------------------------------------------------
  // destroy

  /** The rows a DELETE removes: those whose parent is the id, or the row with the id. */
  datatype Doomed = ChildOf(parent: int) | Itself(id: int)

  predicate Deleted(d: Doomed, c: Category) {
    match d
    case ChildOf(p) => SqlIntEq(c.parentId, VInt(p))
    case Itself(id) => c.id == id
  }

  /** `DELETE FROM categories WHERE ...`: the other rows, in order. */
  function DeleteWhere(rows: seq<Category>, d: Doomed): (r: seq<Category>)
    ensures forall x :: x in r <==> x in rows && !Deleted(d, x)
    ensures |r| <= |rows|
    decreases |rows|
  {
    if rows == [] then []
    else
      var front := rows[..|rows| - 1];
      assert forall x :: x in rows <==> x in front || x == rows[|rows| - 1];
      var r := DeleteWhere(front, d);
      if Deleted(d, rows[|rows| - 1]) then r else r + [rows[|rows| - 1]]
  }

  /** destroy: 404 for an unknown id, else the subcategories deleted, then the category. */
  function DestroyOutcome(id: int, t: Table): (Response, Table) {
    if FindById(t.rows, id).None? then (Error("Category not found", 404, []), t)
    else (Success(VArr(EmptyMap()), "Category deleted successfully", 200),
          Table(DeleteWhere(DeleteWhere(t.rows, ChildOf(id)), Itself(id)), t.nextId))
  }

  /**
   * destroy: a 404 leaving the table as it was for an id no row has;
   * otherwise a 200 with an empty list, and a row is kept exactly when it
   * is neither the category nor one whose parent is the category.
   */
  lemma DestroySpec(id: int, t: Table)
    ensures (forall i :: 0 <= i < |t.rows| ==> t.rows[i].id != id) ==>
      DestroyOutcome(id, t) == (Error("Category not found", 404, []), t)
    ensures (exists i :: 0 <= i < |t.rows| && t.rows[i].id == id) ==>
      && DestroyOutcome(id, t).0 == Success(VArr(EmptyMap()), "Category deleted successfully", 200)
      && DestroyOutcome(id, t).1.nextId == t.nextId
      && forall x :: x in DestroyOutcome(id, t).1.rows <==> x in t.rows && x.id != id && !SqlIntEq(x.parentId, VInt(id))
  {
    if FindById(t.rows, id).Some? {
      var kept := DeleteWhere(t.rows, ChildOf(id));
      var rows := DeleteWhere(kept, Itself(id));
      assert DestroyOutcome(id, t).1 == Table(rows, t.nextId);
      forall x ensures x in rows <==> x in t.rows && x.id != id && !SqlIntEq(x.parentId, VInt(id)) {
        assert x in rows <==> x in kept && !Deleted(Itself(id), x);
        assert x in kept <==> x in t.rows && !Deleted(ChildOf(id), x);
      }
    }
  }

  /**
   * Only one level goes: a grandchild of the deleted category (the child of
   * one of its subcategories) survives destroy, while that subcategory does not.
   */
  lemma DestroyKeepsGrandchildren(id: int, t: Table, child: Category, x: Category)
    requires FindById(t.rows, id).Some?
    requires child in t.rows && child.id != id && SqlIntEq(child.parentId, VInt(id))
    requires x in t.rows && x.id != id && SqlInt(x.parentId) == Some(child.id)
    ensures child !in DestroyOutcome(id, t).1.rows
    ensures x in DestroyOutcome(id, t).1.rows
  {
    DestroySpec(id, t);
  }

  /** destroy keeps the table's constraints. */
  lemma DestroyKeepsTable(id: int, t: Table)
    requires TableOk(t)
    ensures TableOk(DestroyOutcome(id, t).1)
  {
    if FindById(t.rows, id).Some? {
      DeleteKeepsTable(t, ChildOf(id));
      DeleteKeepsTable(Table(DeleteWhere(t.rows, ChildOf(id)), t.nextId), Itself(id));
    }
  }

  /** A DELETE keeps the constraints. */
  lemma {:induction false} DeleteKeepsTable(t: Table, d: Doomed)
    requires TableOk(t)
    ensures TableOk(Table(DeleteWhere(t.rows, d), t.nextId))
    decreases |t.rows|
  {
    if t.rows != [] {
      var front := t.rows[..|t.rows| - 1];
      var last := t.rows[|t.rows| - 1];
      FrontKeepsTable(t);
      DeleteKeepsTable(Table(front, t.nextId), d);
      var r := DeleteWhere(front, d);
      if !Deleted(d, last) {
        LastClashesNone(t, r);
        SnocKeepsTable(r, last, t.nextId);
      }
    }
  }

  /** Dropping the last row keeps the constraints. */
  lemma FrontKeepsTable(t: Table)
    requires TableOk(t) && t.rows != []
    ensures TableOk(Table(t.rows[..|t.rows| - 1], t.nextId))
  {
    var front := t.rows[..|t.rows| - 1];
    forall i, j | 0 <= i < j < |front| ensures front[i].id != front[j].id && front[i].slug != front[j].slug {
      assert front[i] == t.rows[i] && front[j] == t.rows[j];
    }
  }

  /** No row taken from before the last one clashes with the last one. */
  lemma LastClashesNone(t: Table, r: seq<Category>)
    requires TableOk(t) && t.rows != []
    requires forall x :: x in r ==> x in t.rows[..|t.rows| - 1]
    ensures forall x :: x in r ==> x.id != t.rows[|t.rows| - 1].id && x.slug != t.rows[|t.rows| - 1].slug
  {
    var front := t.rows[..|t.rows| - 1];
    forall x | x in r ensures x.id != t.rows[|t.rows| - 1].id && x.slug != t.rows[|t.rows| - 1].slug {
      var k :| 0 <= k < |front| && front[k] == x;
      assert t.rows[k] == x;
    }
  }

  /** One more row, below the next id and clashing with none, keeps the constraints. */
  lemma SnocKeepsTable(r: seq<Category>, last: Category, nextId: int)
    requires TableOk(Table(r, nextId)) && last.id < nextId
    requires forall x :: x in r ==> x.id != last.id && x.slug != last.slug
    ensures TableOk(Table(r + [last], nextId))
  {
    var rows := r + [last];
    forall i, j | 0 <= i < j < |rows| ensures rows[i].id != rows[j].id && rows[i].slug != rows[j].slug {
      if j == |r| {
        assert rows[i] == r[i] && r[i] in r;
      } else {
        assert rows[i] == r[i] && rows[j] == r[j];
      }
    }
    forall i | 0 <= i < |rows| ensures rows[i].id < nextId {
      if i < |r| {
        assert rows[i] == r[i];
      }
    }
  }

  // ---------------------------------------------------------------------------
  // tree

  /** A node as tree sends it: the row's columns, then its `children` as a list. */
  function NodeValue(n: Node): Value
    decreases n, 1
  {
    VArr(Put(RowArray(n.row), "children", VArr(ListOf(NodeValues(n.children)))))
  }

  /** A forest as the list tree sends. */
  function NodeValues(ns: seq<Node>): seq<Value>
    decreases ns, 0
  {
    seq(|ns|, i requires 0 <= i < |ns| => NodeValue(ns[i]))
  }

  /**
   * tree: every row fetched, metadata decoded, then buildCategoryTree from
   * the roots. The model gives the recursion one level per row and more;
   * TreeSettles shows that whenever PHP's recursion ends this budget gives
   * its result. Rows on a parent_id loop are never reached from the roots
   * (CycleOmitted), so the budget runs out, as PHP's stack would with no
   * catch to see it, only when the loose comparison makes a row its own
   * descendant: a row whose id is 0, or whose parent value is not an
   * integer, such as `true`.
   */
  function TreeOutcome(rows: seq<Category>, w: World): Response {
    var fetched := DecodedAll(rows, w.jsonDecode);
    match Tree(fetched, None, |fetched| + 1)
    case None => Fatal("stack overflow")
    case Some(t) => Success(VArr(ListOf(NodeValues(t))), "Category tree retrieved successfully", 200)
  }

  /** Whatever budget lets the recursion from the roots end, tree answers with that forest. */
  lemma TreeAnswer(rows: seq<Category>, w: World, fuel: nat)
    requires Tree(DecodedAll(rows, w.jsonDecode), None, fuel).Some?
    ensures TreeOutcome(rows, w) ==
      Success(VArr(ListOf(NodeValues(Tree(DecodedAll(rows, w.jsonDecode), None, fuel).value))), "Category tree retrieved successfully", 200)
  {
    TreeSettles(DecodedAll(rows, w.jsonDecode), None, fuel);
  }

  /** tree fails exactly when the recursion from the roots would never end, on any budget. */
  lemma TreeEndless(rows: seq<Category>, w: World)
    ensures TreeOutcome(rows, w).Fatal? <==> forall fuel: nat :: Tree(DecodedAll(rows, w.jsonDecode), None, fuel).None?
  {
    var fetched := DecodedAll(rows, w.jsonDecode);
    assert TreeOutcome(rows, w).Fatal? <==> Tree(fetched, None, |fetched| + 1).None?;
    EndlessAtBudget(fetched);
  }

  /** The budget of one level per row fails only when every budget does. */
  lemma EndlessAtBudget(rows: seq<Category>)
    ensures Tree(rows, None, |rows| + 1).None? <==> forall fuel: nat :: Tree(rows, None, fuel).None?
  {
    if Tree(rows, None, |rows| + 1).None? {
      forall fuel: nat ensures Tree(rows, None, fuel).None? {
        TreeDepthBound(rows, None, fuel);
      }
    }
  }

  // ---------------------------------------------------------------------------
  // The endpoints over the table

  /** The `categories` table behind the endpoints, with the sessions requireAuth consults. */
  class Categories {
    var rows: seq<Category>
    var nextId: int
    var sessions: seq<Session>

    /** The table's primary key and unique slug index hold. */
    ghost predicate Valid()
      reads this
    {
      TableOk(Table(rows, nextId))
    }

    /** An empty table whose first id is 1. */
    constructor (sessions: seq<Session>)
      ensures Valid() && rows == [] && nextId == 1 && this.sessions == sessions
    {
      rows := [];
      nextId := 1;
      this.sessions := sessions;
    }

    /**
     * index, with the search answered as intended rather than refused as
     * IndexAsWritten is: the page fetched into an array, its metadata
     * decoded in place; the table is only read.
     */
    method Index(query: PhpArray, w: World) returns (r: Response)
      ensures r == IndexOutcome(query, w, rows)
    {
      var page := PageOf(query);
      var limit := LimitOf(query);
      var selected := Selected(rows, ParentFilterOf(query), SearchOf(query));
      assert IndexOutcome(query, w, rows) == Listing(page, limit, selected, w);
      var offset := (page - 1) * limit;
      if limit < 0 || offset < 0 {
        return Error("Failed to retrieve categories: " + w.dbMessage, 500, []);
      }
      var fetched := FetchDecoded(PageRows(selected, offset, limit), w.jsonDecode);
      var win := PageWindow(page, limit, |selected|);
      if win.Err? {
        return Fatal("DivisionByZeroError");
      }
      r := Success(IndexData(fetched, win.value), "Categories retrieved successfully", 200);
    }

    /** tree: every row fetched and decoded, then the recursion from the roots; the table is only read. */
    method Tree(w: World) returns (r: Response)
      ensures r == TreeOutcome(rows, w)
    {
      var fetched := FetchDecoded(rows, w.jsonDecode);
      var t := BuildCategoryTree(fetched, None, |fetched| + 1);
      if t.None? {
        return Fatal("stack overflow");
      }
      r := Success(VArr(ListOf(NodeValues(t.value))), "Category tree retrieved successfully", 200);
    }

    /** store: requireAuth, then the rules of StoreOutcome on the table. */
    method Store(header: Option<string>, data: PhpArray, w: World) returns (r: Response)
      requires Valid()
      modifies this
      ensures Valid()
      ensures var (a, after) := RequireAuth(header, JwtKey(w.secret, w.algorithm), w.decode, old(sessions));
        && sessions == after
        && (a.Refused? ==> r == a.response && rows == old(rows) && nextId == old(nextId))
        && (a.Authorized? ==> (r, Table(rows, nextId)) == StoreOutcome(data, w, Table(old(rows), old(nextId))))
    {
      var (a, after) := RequireAuth(header, JwtKey(w.secret, w.algorithm), w.decode, sessions);
      sessions := after;
      if a.Refused? {
        return a.response;
      }
      StoreKeepsTable(data, w, Table(rows, nextId));
      r := Create(data, w);
    }

    /** store past requireAuth: validation and the slug check, then the insert. */
    method Create(data: PhpArray, w: World) returns (r: Response)
      modifies this
      ensures sessions == old(sessions)
      ensures (r, Table(rows, nextId)) == StoreOutcome(data, w, Table(old(rows), old(nextId)))
    {
      var errors := ValidateRequired(data, StoreFields);
      if errors != [] {
        return Error("Validation failed", 400, errors);
      }
      var slug := CleanSlug(data, w.strip);
      if slug.None? {
        return TypeError;
      }
      if SlugHeld(rows, slug.value, None) {
        return Error("Category slug must be unique", 400, []);
      }
      var built := NewRow(data, w, nextId);
      assert StoreOutcome(data, w, Table(rows, nextId)) == StoreInsert(built, w, Table(rows, nextId));
      r := Insert(built, w);
    }

    /** `$this->db->insert('categories', $categoryData)` and the fetch of the new row. */
    method Insert(built: Option<Category>, w: World) returns (r: Response)
      modifies this
      ensures sessions == old(sessions)
      ensures (r, Table(rows, nextId)) == StoreInsert(built, w, Table(old(rows), old(nextId)))
    {
      if built.None? {
        return TypeError;
      }
      if SlugHeld(rows, built.value.slug, None) {
        nextId := nextId + 1;
        return Error("Failed to create category: " + w.dbMessage, 500, []);
      }
      rows := rows + [built.value];
      nextId := nextId + 1;
      r := RowAnswer(built.value, w, "Category created successfully", 201);
    }

    /** update: requireAuth, then the rules of UpdateOutcome on the table. */
    method Update(header: Option<string>, id: int, data: PhpArray, w: World) returns (r: Response)
      requires Valid()
      modifies this
      ensures Valid()
      ensures var (a, after) := RequireAuth(header, JwtKey(w.secret, w.algorithm), w.decode, old(sessions));
        && sessions == after
        && (a.Refused? ==> r == a.response && rows == old(rows) && nextId == old(nextId))
        && (a.Authorized? ==> (r, Table(rows, nextId)) == UpdateOutcome(id, data, w, Table(old(rows), old(nextId))))
    {
      var (a, after) := RequireAuth(header, JwtKey(w.secret, w.algorithm), w.decode, sessions);
      sessions := after;
      if a.Refused? {
        return a.response;
      }
      UpdateKeepsTable(id, data, w, Table(rows, nextId));
      r := Revise(id, data, w);
    }

    /** update past requireAuth: the 404 and the slug check, then the statement. */
    method Revise(id: int, data: PhpArray, w: World) returns (r: Response)
      modifies this
      ensures sessions == old(sessions)
      ensures (r, Table(rows, nextId)) == UpdateOutcome(id, data, w, Table(old(rows), old(nextId)))
    {
      var found := FindById(rows, id);
      if found.None? {
        return Error("Category not found", 404, []);
      }
      if IsSet(data, "slug") {
        var slug := CleanSlug(data, w.strip);
        if slug.None? {
          return TypeError;
        }
        if SlugHeld(rows, slug.value, Some(id)) {
          return Error("Category slug must be unique", 400, []);
        }
      }
      assert UpdateOutcome(id, data, w, Table(rows, nextId)) == UpdateApply(D.Named, id, found.value, data, w, Table(rows, nextId));
      r := Apply(D.Named, id, found.value, data, w);
    }

    /**
     * The update data, `$this->db->update('categories', $updateData, 'id = ?', [$id])`
     * with the given WHERE marker, and the fetch.
     */
    method Apply(m: D.WhereMarker, id: int, found: Category, data: PhpArray, w: World) returns (r: Response)
      modifies this
      ensures sessions == old(sessions)
      ensures (r, Table(rows, nextId)) == UpdateApply(m, id, found, data, w, Table(old(rows), old(nextId)))
    {
      ghost var t := Table(rows, nextId);
      var u := BuildUpdateData(data, w);
      if u.None? {
        assert UpdateApply(m, id, found, data, w, t) == (TypeError, t);
        return TypeError;
      }
      if !D.UpdatePrepares("categories", u.value.keys, "id", m) {
        r := Error("Failed to update category: " + w.dbMessage, 500, []);
        assert UpdateApply(m, id, found, data, w, t) == (r, t);
        return;
      }
      if "slug" in u.value.vals && SlugHeld(rows, u.value.vals["slug"], Some(id)) {
        r := Error("Failed to update category: " + w.dbMessage, 500, []);
        assert UpdateApply(m, id, found, data, w, t) == (r, t);
        return;
      }
      rows := UpdateRows(rows, id, u.value);
      r := RowAnswer(ApplyUpdate(found, u.value), w, "Category updated successfully", 200);
      assert UpdateApply(m, id, found, data, w, t) == (r, Table(rows, nextId));
    }

    /** destroy: requireAuth, then the two deletes of DestroyOutcome. */
    method Destroy(header: Option<string>, id: int, w: World) returns (r: Response)
      requires Valid()
      modifies this
      ensures Valid()
      ensures var (a, after) := RequireAuth(header, JwtKey(w.secret, w.algorithm), w.decode, old(sessions));
        && sessions == after
        && (a.Refused? ==> r == a.response && rows == old(rows) && nextId == old(nextId))
        && (a.Authorized? ==> (r, Table(rows, nextId)) == DestroyOutcome(id, Table(old(rows), old(nextId))))
    {
      var (a, after) := RequireAuth(header, JwtKey(w.secret, w.algorithm), w.decode, sessions);
      sessions := after;
      if a.Refused? {
        return a.response;
      }
      DestroyKeepsTable(id, Table(rows, nextId));
      if FindById(rows, id).None? {
        return Error("Category not found", 404, []);
      }
      rows := DeleteWhere(rows, ChildOf(id));
      rows := DeleteWhere(rows, Itself(id));
      r := Success(VArr(EmptyMap()), "Category deleted successfully", 200);
    }
  }
}
