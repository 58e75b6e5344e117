/**
 * The SQL text the database wrapper builds (src/Core/Database.php): the PDO
 * data source name for the configured driver, and the INSERT, UPDATE and
 * DELETE statements with the parameters they are bound with. Running the
 * statements is not modelled.
 */
module Database {
  import opened Strings
  import opened Php

  // ---------------------------------------------------------------------------
  // buildDsn

  /** The `database` section fields buildDsn reads. */
  datatype DbConfig = DbConfig(connection: string, host: string, port: Value, name: string, charset: string)

  /** `sprintf('%d', $v)`: the integer reading of a scalar (an array reads as 1). */
  function IntArg(v: Value): int {
    match v
    case VNull => 0
    case VBool(b) => if b then 1 else 0
    case VInt(i) => i
    case VStr(s) => LeadingInt(s)
    case VArr(a) => if a.keys == [] then 0 else 1
  }

  /** buildDsn: the DSN for mysql, pgsql and sqlite; any other connection raises an error. */
  function BuildDsn(c: DbConfig): (r: Result<string>)
    ensures r.Ok? <==> c.connection in ["mysql", "pgsql", "sqlite"]
    ensures r.Err? ==> r.message == "Unsupported database connection: " + c.connection
  {
    if c.connection == "mysql" then
      Ok("mysql" + ":" + Join(";", ["host=" + c.host, "port=" + IntToString(IntArg(c.port)), "dbname=" + c.name, "charset=" + c.charset]))
    else if c.connection == "pgsql" then
      Ok("pgsql" + ":" + Join(";", ["host=" + c.host, "port=" + IntToString(IntArg(c.port)), "dbname=" + c.name]))
    else if c.connection == "sqlite" then
      Ok("sqlite" + ":" + c.name)
    else
      Err("Unsupported database connection: " + c.connection)
  }

  /**
   * How PDO reads a DSN: the driver name up to the first colon, then the
   * `key=value` settings separated by semicolons.
   */
  function ParseDsn(dsn: string): (string, seq<string>) {
    var driver := Split(dsn, ':')[0];
    if |driver| < |dsn| then (driver, Split(dsn[|driver| + 1..], ';')) else (driver, [])
  }

  /** A DSN `d:rest` for a driver name without a colon reads back as the driver and the settings of `rest`. */
  lemma ParseDriver(driver: string, rest: string)
    requires ':' !in driver
    ensures ParseDsn(driver + ":" + rest) == (driver, Split(rest, ';'))
  {
    var dsn := driver + ":" + rest;
    assert dsn == driver + [':'] + rest;
    SplitPrefix(driver, rest, ':');
    assert dsn[|driver| + 1..] == rest;
  }

  /** Settings none of which holds a semicolon read back one by one. */
  lemma ReadSettings(driver: string, parts: seq<string>)
    requires ':' !in driver && |parts| >= 1 && forall i :: 0 <= i < |parts| ==> ';' !in parts[i]
    ensures ParseDsn(driver + ":" + Join(";", parts)) == (driver, parts)
  {
    SplitJoin(parts, ';');
    ParseDriver(driver, Join(";", parts));
  }

  /** A key prefix followed by a value without a semicolon holds none. */
  lemma NoSemicolon(a: string, b: string)
    requires ';' !in a && ';' !in b
    ensures ';' !in a + b
  {
  }

  /**
   * The mysql DSN reads back as the mysql driver with the host, port,
   * database name and charset settings, in that order, when none of the
   * configured strings holds a semicolon.
   */
  lemma MysqlDsnRoundTrip(c: DbConfig)
    requires c.connection == "mysql" && ';' !in c.host && ';' !in c.name && ';' !in c.charset
    ensures BuildDsn(c).Ok?
    ensures ParseDsn(BuildDsn(c).value) ==
      ("mysql", ["host=" + c.host, "port=" + IntToString(IntArg(c.port)), "dbname=" + c.name, "charset=" + c.charset])
  {
    var p := IntToString(IntArg(c.port));
    IntDigits(IntArg(c.port));
    NoSemicolon("host=", c.host);
    NoSemicolon("port=", p);
    NoSemicolon("dbname=", c.name);
    NoSemicolon("charset=", c.charset);
    ReadSettings("mysql", ["host=" + c.host, "port=" + p, "dbname=" + c.name, "charset=" + c.charset]);
  }

  /** The pgsql DSN reads back as the pgsql driver with the host, port and database name settings. */
  lemma PgsqlDsnRoundTrip(c: DbConfig)
    requires c.connection == "pgsql" && ';' !in c.host && ';' !in c.name
    ensures BuildDsn(c).Ok?
    ensures ParseDsn(BuildDsn(c).value) == ("pgsql", ["host=" + c.host, "port=" + IntToString(IntArg(c.port)), "dbname=" + c.name])
  {
    var p := IntToString(IntArg(c.port));
    IntDigits(IntArg(c.port));
    NoSemicolon("host=", c.host);
    NoSemicolon("port=", p);
    NoSemicolon("dbname=", c.name);
    ReadSettings("pgsql", ["host=" + c.host, "port=" + p, "dbname=" + c.name]);
  }

  /** The sqlite DSN reads back as the sqlite driver with the database name as its one setting. */
  lemma SqliteDsnRoundTrip(c: DbConfig)
    requires c.connection == "sqlite" && ';' !in c.name
    ensures BuildDsn(c).Ok?
    ensures ParseDsn(BuildDsn(c).value) == ("sqlite", [c.name])
  {
    SplitNoSep(c.name, ';');
    ParseDriver("sqlite", c.name);
  }

  /** A decimal integer holds no semicolon. */
  lemma IntDigits(i: int)
    ensures ';' !in IntToString(i)
  {
    var s := NatToString(if i < 0 then -i else i);
    assert forall k :: 0 <= k < |s| ==> IsDigit(s[k]);
  }

  // ---------------------------------------------------------------------------
  // insert, update, delete

  /** A statement and the parameters it is executed with. */
  datatype Statement = Statement(sql: string, params: PhpArray)

  /** `':' . $k` for every key. */
  function Placeholders(keys: seq<string>): (r: seq<string>)
    ensures |r| == |keys| && forall i :: 0 <= i < |keys| ==> r[i] == ":" + keys[i]
  {
    seq(|keys|, i requires 0 <= i < |keys| => ":" + keys[i])
  }

  /** insert: the columns in key order and a `:column` placeholder each, bound with the data. */
  function Insert(table: string, data: PhpArray): Statement {
    var columns := Join(", ", data.keys);
    var placeholders := ":" + Join(", :", data.keys);
    Statement("INSERT INTO " + table + " (" + columns + ") VALUES (" + placeholders + ")", data)
  }

  /** `':' . implode(', :', $keys)` is the list of placeholders joined with ", ", one per key. */
  lemma {:induction false} PlaceholderList(keys: seq<string>)
    requires |keys| >= 1
    ensures ":" + Join(", :", keys) == Join(", ", Placeholders(keys))
    decreases |keys|
  {
    if |keys| > 1 {
      PlaceholderList(keys[1..]);
      assert Placeholders(keys)[1..] == Placeholders(keys[1..]);
      calc {
        ":" + Join(", :", keys);
        ":" + (keys[0] + ", :" + Join(", :", keys[1..]));
        (":" + keys[0]) + ", " + (":" + Join(", :", keys[1..]));
        (":" + keys[0]) + ", " + Join(", ", Placeholders(keys[1..]));
        Join(", ", Placeholders(keys));
      }
    }
  }

  /**
   * The INSERT for a non-empty row names its columns in key order and
   * binds each column through the placeholder at the same position.
   */
  lemma InsertSpec(table: string, data: PhpArray)
    requires |data.keys| >= 1
    ensures Insert(table, data).sql ==
      "INSERT INTO " + table + " (" + Join(", ", data.keys) + ") VALUES (" + Join(", ", Placeholders(data.keys)) + ")"
    ensures Insert(table, data).params == data
  {
    PlaceholderList(data.keys);
  }

  /** An empty row gives column list "" and the lone placeholder ":", which no database accepts. */
  lemma InsertEmpty(table: string)
    ensures Insert(table, EmptyMap()).sql == "INSERT INTO " + table + " () VALUES (:)"
  {
  }

  /** The `column = :column` assignments of update, in key order. */
  function Assignments(keys: seq<string>): (r: seq<string>)
    ensures |r| == |keys| && forall i :: 0 <= i < |keys| ==> r[i] == keys[i] + " = :" + keys[i]
  {
    seq(|keys|, i requires 0 <= i < |keys| => keys[i] + " = :" + keys[i])
  }

  /** The foreach of update appending one assignment per column. */
  method SetClause(keys: seq<string>) returns (parts: seq<string>)
    ensures parts == Assignments(keys)
  {
    parts := [];
    var i := 0;
    while i < |keys|
      invariant 0 <= i <= |keys|
      invariant parts == Assignments(keys[..i])
    {
      var column := keys[i];
      parts := parts + [column + " = :" + column];
      i := i + 1;
    }
    assert keys[..i] == keys;
  }

  /** A key PHP stores as an integer: the decimal form of an integer. */
  predicate IsIntKey(k: string) {
    (|k| >= 1 && AllDigits(k) && (|k| == 1 || k[0] != '0')) ||
    (|k| >= 2 && k[0] == '-' && k[1] != '0' && AllDigits(k[1..]))
  }

  /**
   * `array_merge($a, $b)` from entry `i` of `b` on, with `next` the next
   * list index: an integer key is renumbered and appended, a string key is
   * assigned (a later one replacing an earlier one in place).
   */
  function MergeFrom(acc: PhpArray, next: nat, b: PhpArray, i: nat): PhpArray
    requires Wf(b) && i <= |b.keys|
    decreases |b.keys| - i
  {
    if i == |b.keys| then acc
    else
      var k := b.keys[i];
      if IsIntKey(k) then MergeFrom(Put(acc, NatToString(next), b.vals[k]), next + 1, b, i + 1)
      else MergeFrom(Put(acc, k, b.vals[k]), next, b, i + 1)
  }

  /** How many keys of `m` are integer keys. */
  function IntKeyCount(keys: seq<string>): nat {
    if keys == [] then 0 else (if IsIntKey(keys[0]) then 1 else 0) + IntKeyCount(keys[1..])
  }

  /** `array_merge($a, $b)`. */
  function ArrayMerge(a: PhpArray, b: PhpArray): PhpArray
    requires Wf(a) && Wf(b)
  {
    var front := MergeFrom(EmptyMap(), 0, a, 0);
    MergeFrom(front, IntKeyCount(a.keys), b, 0)
  }

  /** update: `UPDATE t SET assignments WHERE w`, bound with the data and then the WHERE parameters. */
  function Update(table: string, data: PhpArray, where: string, whereParams: PhpArray): Statement
    requires Wf(data) && Wf(whereParams)
  {
    Statement(UpdateSql(table, data.keys, where), ArrayMerge(data, whereParams))
  }

  /** The text of update: `UPDATE table SET c = :c, ... WHERE where`. */
  function UpdateSql(table: string, columns: seq<string>, where: string): string {
    "UPDATE " + table + " SET " + Join(", ", Assignments(columns)) + " WHERE " + where
  }

  /** The update method of the wrapper: the clause from the foreach, then the statement. */
  method UpdateStatement(table: string, data: PhpArray, where: string, whereParams: PhpArray) returns (st: Statement)
    requires Wf(data) && Wf(whereParams)
    ensures st == Update(table, data, where, whereParams)
  {
    var parts := SetClause(data.keys);
    st := Statement("UPDATE " + table + " SET " + Join(", ", parts) + " WHERE " + where, ArrayMerge(data, whereParams));
  }

  /** delete: `DELETE FROM t WHERE w`, bound with the WHERE parameters only. */
  function Delete(table: string, where: string, whereParams: PhpArray): Statement {
    Statement("DELETE FROM " + table + " WHERE " + where, whereParams)
  }

  /**
   * How the text of a DELETE reads, word by word: the keywords, the table,
   * then the condition, which is the rest of the text after WHERE.
   */
  function ParseDelete(sql: string): Option<(string, string)> {
    var words := Split(sql, ' ');
    if |words| >= 5 && words[0] == "DELETE" && words[1] == "FROM" && words[3] == "WHERE" then
      Some((words[2], Join(" ", words[4..])))
    else None
  }

  /** Four words without a space, each followed by one, split off the front of a text. */
  lemma FourWords(a: string, b: string, c: string, d: string, rest: string)
    requires ' ' !in a && ' ' !in b && ' ' !in c && ' ' !in d
    ensures Split(a + " " + (b + " " + (c + " " + (d + " " + rest))), ' ') == [a, b, c, d] + Split(rest, ' ')
  {
    var r3 := d + " " + rest;
    var r2 := c + " " + r3;
    var r1 := b + " " + r2;
    SplitPrefix(d, rest, ' ');
    SplitPrefix(c, r3, ' ');
    SplitPrefix(b, r2, ' ');
    SplitPrefix(a, r1, ' ');
    assert [a] + ([b] + ([c] + ([d] + Split(rest, ' ')))) == [a, b, c, d] + Split(rest, ' ');
  }

  /**
   * A DELETE for a table name without a space reads back as that table and
   * the whole condition, and binds the WHERE parameters as given: unlike
   * update, nothing is merged before them or renumbered.
   */
  lemma DeleteRoundTrip(table: string, where: string, whereParams: PhpArray)
    requires ' ' !in table
    ensures ParseDelete(Delete(table, where, whereParams).sql) == Some((table, where))
    ensures Delete(table, where, whereParams).params == whereParams
  {
    assert "DELETE FROM " == "DELETE" + " " + "FROM" + " ";
    assert " WHERE " == " " + "WHERE" + " ";
    assert Delete(table, where, whereParams).sql == "DELETE" + " " + ("FROM" + " " + (table + " " + ("WHERE" + " " + where)));
    FourWords("DELETE", "FROM", table, "WHERE", where);
    JoinSplit(where, ' ');
  }

  /** The first `i` entries of an array. */
  function Front(b: PhpArray, i: nat): PhpArray
    requires i <= |b.keys|
  {
    OrderedMap(b.keys[..i], map k | k in b.keys[..i] && k in b.vals :: b.vals[k])
  }

  /** Merging the remaining entries of `b`, none with an integer key, after its first `i` gives `b` back. */
  lemma {:induction false} MergeStrings(b: PhpArray, next: nat, i: nat)
    requires Wf(b) && i <= |b.keys|
    requires forall j :: i <= j < |b.keys| ==> !IsIntKey(b.keys[j])
    ensures MergeFrom(Front(b, i), next, b, i) == b
    decreases |b.keys| - i
  {
    if i == |b.keys| {
      assert b.keys[..i] == b.keys;
      assert Front(b, i).vals == b.vals;
    } else {
      FrontSnoc(b, i);
      MergeStrings(b, next, i + 1);
    }
  }

  /** Putting the next entry of `b` after its first `i` gives its first `i + 1`. */
  lemma FrontSnoc(b: PhpArray, i: nat)
    requires Wf(b) && i < |b.keys|
    ensures Put(Front(b, i), b.keys[i], b.vals[b.keys[i]]) == Front(b, i + 1)
  {
    var k := b.keys[i];
    var f, g := Front(b, i), Front(b, i + 1);
    assert k !in b.keys[..i];
    assert k !in f.vals;
    assert b.keys[..i + 1] == b.keys[..i] + [k];
    assert f.vals[k := b.vals[k]] == g.vals by {
      forall x ensures x in f.vals[k := b.vals[k]] <==> x in g.vals {
        assert x in b.keys[..i + 1] <==> x in b.keys[..i] || x == k;
      }
    }
  }

  /** The keys NatToString(next), NatToString(next + 1), ... */
  function ShiftedKeys(next: nat, n: nat): (r: seq<string>)
    ensures |r| == n && forall j :: 0 <= j < n ==> r[j] == NatToString(next + j)
  {
    seq(n, j requires 0 <= j < n => NatToString(next + j))
  }

  /** Merging keeps an array well formed. */
  lemma {:induction false} MergeWf(acc: PhpArray, next: nat, b: PhpArray, i: nat)
    requires Wf(acc) && Wf(b) && i <= |b.keys|
    ensures Wf(MergeFrom(acc, next, b, i))
    decreases |b.keys| - i
  {
    if i < |b.keys| {
      var k := b.keys[i];
      if IsIntKey(k) {
        PutOrder(acc, NatToString(next), b.vals[k]);
        MergeWf(Put(acc, NatToString(next), b.vals[k]), next + 1, b, i + 1);
      } else {
        PutOrder(acc, k, b.vals[k]);
        MergeWf(Put(acc, k, b.vals[k]), next, b, i + 1);
      }
    }
  }

  /** One turn of array_merge on an integer key: the value goes under the next index. */
  lemma MergeIntStep(acc: PhpArray, next: nat, b: PhpArray, i: nat)
    requires Wf(b) && i < |b.keys| && IsIntKey(b.keys[i])
    ensures MergeFrom(acc, next, b, i) == MergeFrom(Put(acc, NatToString(next), b.vals[b.keys[i]]), next + 1, b, i + 1)
  {
  }

  /** Merging the remaining entries of `b`, all with integer keys, appends them under the next indices. */
  lemma {:induction false} MergeIntKeys(acc: PhpArray, next: nat, b: PhpArray, i: nat)
    requires Wf(b) && i <= |b.keys|
    requires forall j :: i <= j < |b.keys| ==> IsIntKey(b.keys[j])
    requires forall j: nat :: next <= j ==> NatToString(j) !in acc.vals
    ensures MergeFrom(acc, next, b, i).keys == acc.keys + ShiftedKeys(next, |b.keys| - i)
    decreases |b.keys| - i
  {
    if i < |b.keys| {
      var acc' := Put(acc, NatToString(next), b.vals[b.keys[i]]);
      MergeIntStep(acc, next, b, i);
      assert acc'.keys == acc.keys + [NatToString(next)];
      LaterIndexDiffers(next);
      MergeIntKeys(acc', next + 1, b, i + 1);
      assert ShiftedKeys(next, |b.keys| - i) == [NatToString(next)] + ShiftedKeys(next + 1, |b.keys| - (i + 1));
    }
  }

  /** Merging the remaining integer-keyed entries leaves every key that is no later index as it was. */
  lemma {:induction false} MergeIntOld(acc: PhpArray, next: nat, b: PhpArray, i: nat, k: string)
    requires Wf(b) && i <= |b.keys|
    requires forall j :: i <= j < |b.keys| ==> IsIntKey(b.keys[j])
    requires forall j: nat :: next <= j ==> NatToString(j) != k
    ensures Get(MergeFrom(acc, next, b, i), k) == Get(acc, k)
    decreases |b.keys| - i
  {
    if i < |b.keys| {
      var v := b.vals[b.keys[i]];
      MergeIntStep(acc, next, b, i);
      PutOther(acc, NatToString(next), v, k);
      MergeIntOld(Put(acc, NatToString(next), v), next + 1, b, i + 1, k);
    }
  }

  /** Merging the remaining integer-keyed entries stores entry `i + j` under the index `next + j`. */
  lemma {:induction false} MergeIntNew(acc: PhpArray, next: nat, b: PhpArray, i: nat, j: nat)
    requires Wf(b) && i + j < |b.keys|
    requires forall m :: i <= m < |b.keys| ==> IsIntKey(b.keys[m])
    ensures Get(MergeFrom(acc, next, b, i), NatToString(next + j)) == Get(b, b.keys[i + j])
    decreases |b.keys| - i
  {
    if j == 0 {
      MergeIntFirst(acc, next, b, i);
    } else {
      MergeIntLater(acc, next, b, i, j);
      MergeIntNew(Put(acc, NatToString(next), b.vals[b.keys[i]]), next + 1, b, i + 1, j - 1);
    }
  }

  /** Looking up index `next + j` after the first integer-keyed entry is the same as looking up `(next + 1) + (j - 1)` in the rest of the merge. */
  lemma MergeIntLater(acc: PhpArray, next: nat, b: PhpArray, i: nat, j: nat)
    requires Wf(b) && i + j < |b.keys| && 0 < j && IsIntKey(b.keys[i])
    ensures Get(MergeFrom(acc, next, b, i), NatToString(next + j))
         == Get(MergeFrom(Put(acc, NatToString(next), b.vals[b.keys[i]]), next + 1, b, i + 1), NatToString((next + 1) + (j - 1)))
    ensures b.keys[(i + 1) + (j - 1)] == b.keys[i + j]
  {
    MergeIntStep(acc, next, b, i);
    assert (next + 1) + (j - 1) == next + j;
  }

  /** The first remaining integer-keyed entry lands under the index `next`. */
  lemma MergeIntFirst(acc: PhpArray, next: nat, b: PhpArray, i: nat)
    requires Wf(b) && i < |b.keys|
    requires forall m :: i <= m < |b.keys| ==> IsIntKey(b.keys[m])
    ensures Get(MergeFrom(acc, next, b, i), NatToString(next)) == Get(b, b.keys[i])
  {
    var acc' := Put(acc, NatToString(next), b.vals[b.keys[i]]);
    MergeIntStep(acc, next, b, i);
    LaterIndexDiffers(next);
    MergeIntOld(acc', next + 1, b, i + 1, NatToString(next));
    PutGet(acc, NatToString(next), b.vals[b.keys[i]]);
    assert b.keys[i] in b.vals;
  }

  /** No later index renders like `next`. */
  lemma LaterIndexDiffers(next: nat)
    ensures forall m: nat :: next + 1 <= m ==> NatToString(m) != NatToString(next)
  {
    forall m: nat | next + 1 <= m ensures NatToString(m) != NatToString(next) {
      if NatToString(m) == NatToString(next) { NatToStringInjective(m, next); }
    }
  }

  /** The decimal form of a natural number is an integer key. */
  lemma NatKeyIsInt(n: nat)
    ensures IsIntKey(NatToString(n))
  {
  }

  /**
   * The parameters of an UPDATE whose data has column-name keys and whose
   * WHERE parameters have integer keys (a list such as `[$id]`) list the data
   * keys, in order, followed by the indices 0, 1, ... of the WHERE values.
   */
  lemma UpdateParamOrder(table: string, data: PhpArray, where: string, whereParams: PhpArray)
    requires Wf(data) && forall j :: 0 <= j < |data.keys| ==> !IsIntKey(data.keys[j])
    requires Wf(whereParams) && forall j :: 0 <= j < |whereParams.keys| ==> IsIntKey(whereParams.keys[j])
    ensures Wf(Update(table, data, where, whereParams).params)
    ensures Update(table, data, where, whereParams).params.keys == data.keys + ListKeys(|whereParams.keys|)
  {
    MergeAfterColumns(data, whereParams);
    ColumnsThenList(data, whereParams);
    assert ShiftedKeys(0, |whereParams.keys|) == ListKeys(|whereParams.keys|);
  }

  /**
   * The same parameters bind every column to its data value and the index
   * `j` to the `j`-th WHERE value.
   */
  lemma UpdateParamValues(table: string, data: PhpArray, where: string, whereParams: PhpArray)
    requires Wf(data) && forall j :: 0 <= j < |data.keys| ==> !IsIntKey(data.keys[j])
    requires Wf(whereParams) && forall j :: 0 <= j < |whereParams.keys| ==> IsIntKey(whereParams.keys[j])
    ensures forall k :: k in data.vals ==> Get(Update(table, data, where, whereParams).params, k) == Get(data, k)
    ensures forall j :: 0 <= j < |whereParams.keys| ==>
      Get(Update(table, data, where, whereParams).params, NatToString(j)) == Get(whereParams, whereParams.keys[j])
  {
    MergeAfterColumns(data, whereParams);
    MergeKeepsColumns(data, whereParams);
    ListAfterColumns(data, whereParams);
  }

  // ---------------------------------------------------------------------------
  // Binding markers

  /** A letter, a digit or `_`: what PDO's scanner reads after `:` as a marker name. */
  predicate IsWordChar(c: char) {
    'a' <= c <= 'z' || 'A' <= c <= 'Z' || '0' <= c <= '9' || c == '_'
  }

  /** A table or column name: word characters only, at least one. */
  predicate IsColumnName(s: string) {
    s != [] && forall i :: 0 <= i < |s| ==> IsWordChar(s[i])
  }

  /** No quote or backtick, so no part of the text is a literal in which PDO's scanner skips markers. */
  predicate Unquoted(s: string) {
    '\'' !in s && '"' !in s && '`' !in s
  }

  /** A named marker `:name` starts at `i`. */
  predicate NamedMarkerAt(sql: string, i: int) {
    0 <= i < |sql| - 1 && sql[i] == ':' && IsWordChar(sql[i + 1])
  }

  /**
   * A text PDO refuses to prepare, with HY093 "mixed named and positional
   * parameters": it holds a named marker and a positional `?`, and no quote
   * could put either inside a literal.
   */
  predicate MixedMarkers(sql: string) {
    (exists i :: 0 <= i < |sql| && NamedMarkerAt(sql, i)) && '?' in sql && Unquoted(sql)
  }

  /**
   * How update's WHERE condition binds its value: `column = ?`, as every
   * caller writes it, or a named marker `column = :where_column`, like
   * those of the SET clause.
   */
  datatype WhereMarker = Positional | Named

  /** The WHERE condition on one column, bound that way. */
  function WhereEquals(column: string, m: WhereMarker): string {
    match m
    case Positional => column + " = ?"
    case Named => column + " = :where_" + column
  }

  /** Whether PDO prepares the UPDATE of `columns` whose WHERE compares `column`, bound that way. */
  predicate UpdatePrepares(table: string, columns: seq<string>, column: string, m: WhereMarker) {
    !MixedMarkers(UpdateSql(table, columns, WhereEquals(column, m)))
  }

  /** Names that an UPDATE text is built from. */
  predicate UpdateNames(table: string, columns: seq<string>, column: string) {
    IsColumnName(table) && IsColumnName(column) && forall c :: c in columns ==> IsColumnName(c)
  }

  /**
   * The WHERE `column = ?` that update's callers pass, after the named
   * markers of a non-empty SET clause: PDO refuses the statement.
   */
  lemma PositionalRefused(table: string, columns: seq<string>, column: string)
    requires UpdateNames(table, columns, column) && columns != []
    ensures !UpdatePrepares(table, columns, column, Positional)
    ensures MixedMarkers(UpdateSql(table, columns, WhereEquals(column, Positional)))
  {
    var where := WhereEquals(column, Positional);
    var c := columns[0];
    assert c in columns;
    var tail := FirstAssignment(table, columns, where);
    MarkerInside("UPDATE " + table + " SET ", c, tail);
    NameAvoids(column);
    assert '?' in where by { assert where[|where| - 1] == '?'; }
    UpdateTextAvoids(table, columns, where);
  }

  /** The text of update starts with its table and first assignment. */
  lemma FirstAssignment(table: string, columns: seq<string>, where: string) returns (tail: string)
    requires columns != []
    ensures UpdateSql(table, columns, where) == ("UPDATE " + table + " SET ") + (columns[0] + " = :" + columns[0]) + tail
  {
    var a := Assignments(columns);
    JoinFirst(", ", a);
    var j := Join(", ", a);
    var head := "UPDATE " + table + " SET ";
    Regroup4(head, a[0], j[|a[0]|..], " WHERE " + where);
    tail := j[|a[0]|..] + (" WHERE " + where);
  }

  /** Regrouping a concatenation of four texts. */
  lemma Regroup4(p: string, q: string, r: string, t: string)
    ensures p + (q + r) + t == p + q + (r + t)
  {
  }

  /** The assignment `c = :c` holds a named marker. */
  lemma MarkerInside(head: string, c: string, tail: string)
    requires IsColumnName(c)
    ensures exists i :: 0 <= i < |head + (c + " = :" + c) + tail| && NamedMarkerAt(head + (c + " = :" + c) + tail, i)
  {
    var sql := head + (c + " = :" + c) + tail;
    var k := |head| + |c| + 3;
    assert sql[k] == ':' && sql[k + 1] == c[0];
    assert NamedMarkerAt(sql, k);
  }

  /** With the WHERE value under a named marker as well, the text holds no `?` and PDO prepares it. */
  lemma NamedPrepares(table: string, columns: seq<string>, column: string)
    requires UpdateNames(table, columns, column)
    ensures UpdatePrepares(table, columns, column, Named)
    ensures '?' !in UpdateSql(table, columns, WhereEquals(column, Named))
  {
    NameAvoids(column);
    UpdateTextAvoids(table, columns, WhereEquals(column, Named));
  }

  /** A name holds no quote, no `?` and no `:`. */
  lemma NameAvoids(s: string)
    requires IsColumnName(s)
    ensures Unquoted(s) && '?' !in s && ':' !in s
  {
    forall i | 0 <= i < |s| ensures s[i] != '\'' && s[i] != '"' && s[i] != '`' && s[i] != '?' && s[i] != ':' {
      assert IsWordChar(s[i]);
    }
  }

  /** The text built from names holds no quote, and a `?` exactly when the WHERE condition has one. */
  lemma UpdateTextAvoids(table: string, columns: seq<string>, where: string)
    requires IsColumnName(table) && (forall c :: c in columns ==> IsColumnName(c)) && Unquoted(where)
    ensures Unquoted(UpdateSql(table, columns, where))
    ensures '?' in UpdateSql(table, columns, where) <==> '?' in where
  {
    NameAvoids(table);
    var a := Assignments(columns);
    forall p | p in a ensures Unquoted(p) && '?' !in p {
      var i :| 0 <= i < |a| && a[i] == p;
      assert columns[i] in columns;
      NameAvoids(columns[i]);
    }
    var j := Join(", ", a);
    JoinAvoids(", ", a, '\'');
    JoinAvoids(", ", a, '"');
    JoinAvoids(", ", a, '`');
    JoinAvoids(", ", a, '?');
    FramedAvoids(table, j, where, '\'');
    FramedAvoids(table, j, where, '"');
    FramedAvoids(table, j, where, '`');
    FramedAvoids(table, j, where, '?');
  }

  /** A quote or `?` that is in neither the table nor the clause is in the text only when it is in the condition. */
  lemma FramedAvoids(table: string, j: string, where: string, x: char)
    requires x == '\'' || x == '"' || x == '`' || x == '?'
    requires x !in table && x !in j
    ensures x in "UPDATE " + table + " SET " + j + " WHERE " + where <==> x in where
  {
    assert x !in "UPDATE " && x !in " SET " && x !in " WHERE ";
  }

  /** A join of a non-empty list starts with its first part. */
  lemma JoinFirst(sep: string, parts: seq<string>)
    requires parts != []
    ensures |parts[0]| <= |Join(sep, parts)| && Join(sep, parts) == parts[0] + Join(sep, parts)[|parts[0]|..]
  {
  }

  /** A character in neither the separator nor any part is not in the join. */
  lemma {:induction false} JoinAvoids(sep: string, parts: seq<string>, x: char)
    requires x !in sep && forall p :: p in parts ==> x !in p
    ensures x !in Join(sep, parts)
    decreases |parts|
  {
    if |parts| > 1 {
      JoinAvoids(sep, parts[1..], x);
    }
  }

  /** A list's keys are integer keys. */
  lemma ListKeysAreInt<V>(items: seq<V>)
    ensures forall j :: 0 <= j < |ListOf(items).keys| ==> IsIntKey(ListOf(items).keys[j])
  {
    forall j | 0 <= j < |ListOf(items).keys| ensures IsIntKey(ListOf(items).keys[j]) {
      NatKeyIsInt(j);
    }
  }

  /** Merging integer-keyed entries after columns lists the columns, then the indices 0, 1, ... */
  lemma ColumnsThenList(data: PhpArray, l: PhpArray)
    requires Wf(data) && Wf(l) && forall j :: 0 <= j < |data.keys| ==> !IsIntKey(data.keys[j])
    requires forall j :: 0 <= j < |l.keys| ==> IsIntKey(l.keys[j])
    ensures Wf(MergeFrom(data, 0, l, 0))
    ensures MergeFrom(data, 0, l, 0).keys == data.keys + ShiftedKeys(0, |l.keys|)
  {
    MergeWf(data, 0, l, 0);
    NoIndexColumns(data);
    MergeIntKeys(data, 0, l, 0);
  }

  /** Merging integer-keyed entries after columns stores entry `j` under the index `j`. */
  lemma ListAfterColumns(data: PhpArray, l: PhpArray)
    requires Wf(l) && forall j :: 0 <= j < |l.keys| ==> IsIntKey(l.keys[j])
    ensures forall j :: 0 <= j < |l.keys| ==> Get(MergeFrom(data, 0, l, 0), NatToString(j)) == Get(l, l.keys[j])
  {
    forall j | 0 <= j < |l.keys| ensures Get(MergeFrom(data, 0, l, 0), NatToString(j)) == Get(l, l.keys[j]) {
      MergeIntNew(data, 0, l, 0, j);
      assert 0 + j == j;
    }
  }

  /** An array keyed by column names holds no list index. */
  lemma NoIndexColumns(data: PhpArray)
    requires Wf(data) && forall j :: 0 <= j < |data.keys| ==> !IsIntKey(data.keys[j])
    ensures forall j: nat :: NatToString(j) !in data.vals
  {
    forall j: nat ensures NatToString(j) !in data.vals {
      NatKeyIsInt(j);
      assert forall i :: 0 <= i < |data.keys| ==> data.keys[i] != NatToString(j);
    }
  }

  /** Merging integer-keyed entries into an array keyed by column names keeps every column's value. */
  lemma MergeKeepsColumns(data: PhpArray, l: PhpArray)
    requires Wf(data) && Wf(l) && forall j :: 0 <= j < |data.keys| ==> !IsIntKey(data.keys[j])
    requires forall j :: 0 <= j < |l.keys| ==> IsIntKey(l.keys[j])
    ensures forall k :: k in data.vals ==> Get(MergeFrom(data, 0, l, 0), k) == Get(data, k)
  {
    forall k | k in data.vals ensures Get(MergeFrom(data, 0, l, 0), k) == Get(data, k) {
      assert !IsIntKey(k) by {
        var j :| 0 <= j < |data.keys| && data.keys[j] == k;
      }
      forall m: nat | 0 <= m ensures NatToString(m) != k {
        NatKeyIsInt(m);
      }
      MergeIntOld(data, 0, l, 0, k);
    }
  }

  /** Merging into an array keyed by column names starts from that array unchanged. */
  lemma MergeAfterColumns(data: PhpArray, b: PhpArray)
    requires Wf(data) && Wf(b) && forall j :: 0 <= j < |data.keys| ==> !IsIntKey(data.keys[j])
    ensures ArrayMerge(data, b) == MergeFrom(data, 0, b, 0)
  {
    assert Front(data, 0) == EmptyMap();
    MergeStrings(data, 0, 0);
    NoIntKeys(data.keys);
  }

  /** Keys none of which is an integer key count no integer keys. */
  lemma {:induction false} NoIntKeys(keys: seq<string>)
    requires forall j :: 0 <= j < |keys| ==> !IsIntKey(keys[j])
    ensures IntKeyCount(keys) == 0
    decreases |keys|
  {
    if keys != [] {
      NoIntKeys(keys[1..]);
    }
  }
}
