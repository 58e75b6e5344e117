/**
 * The authentication service (src/Services/AuthService.php) over the three
 * tables it reads and writes: `users`, `sessions` and `password_resets`, each
 * modelled as the sequence of its rows in insertion order (the order a
 * `SELECT` without `ORDER BY` returns them in here).
 *
 * `password_hash` is idealised as an injective tag of the plaintext and a
 * salt; the salt, the random bytes of a reset token and the clock (`now`, in
 * seconds) are parameters. The read-only queries are functions of the tables;
 * the operations that change them are methods of the class `AuthService`,
 * each proved equal to a function of the tables before the call.
 */
module AuthService {
  import opened Strings
  import opened Php
  import opened Http
  import D = Database

  // ---------------------------------------------------------------------------
  // Passwords

  /** A stored password hash. Only PasswordVerify looks inside it. */
  datatype PasswordHash = PasswordHash(salt: string, secret: string)

  /** `password_hash($password, PASSWORD_DEFAULT)`: the hash verifies that password and no other. */
  function HashPassword(password: string, salt: string): (h: PasswordHash)
    ensures forall p :: PasswordVerify(p, h) <==> p == password
  {
    PasswordHash(salt, password)
  }

  /** `password_verify($password, $hash)`. */
  predicate PasswordVerify(password: string, h: PasswordHash) {
    h.secret == password
  }

  // ---------------------------------------------------------------------------
  // The users table

  /** A row of `users`: its columns, with the password hash kept apart. */
  datatype User = User(columns: PhpArray, password: PasswordHash)

  /** The column `name` of the row holds `v` (SQL `name = ?`). */
  predicate Column(u: User, name: string, v: Value) {
    Get(u.columns, name) == Some(v)
  }

  /** The identifiers a user may log in with. */
  const LoginColumns: seq<string> := ["username", "mail"]

  /** Some column among `names` holds `v` (SQL `a = ? OR b = ?` with the same parameter). */
  predicate MatchesAny(u: User, names: seq<string>, v: Value) {
    exists i :: 0 <= i < |names| && Column(u, names[i], v)
  }

  lemma LoginMatch(u: User, v: Value)
    ensures MatchesAny(u, LoginColumns, v) <==> Column(u, "username", v) || Column(u, "mail", v)
  {
    if Column(u, "username", v) {
      assert Column(u, LoginColumns[0], v);
    }
    if Column(u, "mail", v) {
      assert Column(u, LoginColumns[1], v);
    }
  }

  /** `$db->fetch(... WHERE ...)`: the index of the first row that matches. */
  function FirstWhere(users: seq<User>, names: seq<string>, v: Value): (r: Option<nat>)
    ensures r.Some? ==> r.value < |users| && MatchesAny(users[r.value], names, v)
    ensures forall j :: 0 <= j < |users| && (r.None? || j < r.value) ==> !MatchesAny(users[j], names, v)
    decreases |users|
  {
    if users == [] then None
    else if MatchesAny(users[0], names, v) then Some(0)
    else
      assert forall j :: 1 <= j < |users| ==> users[1..][j - 1] == users[j];
      match FirstWhere(users[1..], names, v)
      case None => None
      case Some(i) => Some(i + 1)
  }

  /** Row i is the first row that has the identifier as username or mail. */
  predicate FirstLogin(users: seq<User>, identifier: string, i: int) {
    0 <= i < |users| && MatchesAny(users[i], LoginColumns, VStr(identifier)) &&
    forall j :: 0 <= j < i ==> !MatchesAny(users[j], LoginColumns, VStr(identifier))
  }

  /** No row stores the password column; the hash is kept apart. */
  predicate UsersValid(users: seq<User>) {
    forall i :: 0 <= i < |users| ==> !Has(users[i].columns, "password")
  }

  /**
   * authenticate: the row is the first with the identifier as username or
   * mail, and only that row's password is checked. The result is null when
   * no row has the identifier or that row's password does not verify; a
   * returned record holds no password.
   */
  function Authenticate(users: seq<User>, identifier: string, password: string): (r: Option<PhpArray>)
    ensures r.Some? <==> exists i :: FirstLogin(users, identifier, i) && PasswordVerify(password, users[i].password)
    ensures r.Some? ==> exists i :: FirstLogin(users, identifier, i) && r.value == users[i].columns
    ensures r.Some? && UsersValid(users) ==> !Has(r.value, "password")
  {
    match FirstWhere(users, LoginColumns, VStr(identifier))
    case None => None
    case Some(i) =>
      assert FirstLogin(users, identifier, i);
      if PasswordVerify(password, users[i].password) then Some(users[i].columns) else None
  }

  /** A row matching the identifier exists, yet an earlier match decides: a later row's password is never tried. */
  lemma {:induction false} FirstMatchDecides(users: seq<User>, identifier: string, password: string, i: nat, j: nat)
    requires i < j < |users|
    requires MatchesAny(users[i], LoginColumns, VStr(identifier)) && MatchesAny(users[j], LoginColumns, VStr(identifier))
    requires !PasswordVerify(password, users[i].password)
    requires forall k :: 0 <= k < i ==> !MatchesAny(users[k], LoginColumns, VStr(identifier))
    ensures Authenticate(users, identifier, password).None?
  {
    assert FirstLogin(users, identifier, i);
    FirstLoginUnique(users, identifier, i);
  }

  /** `getUserById`: the public columns of the first row with that id. */
  const PublicColumns: seq<string> := ["id_user_pk", "username", "mail", "mobile_phone", "permission_level", "created_at", "updated_at"]

  /** `$row[$k]` of a fetched row: the missing column reads as null. */
  function Field(a: PhpArray, k: string): Value {
    if k in a.vals then a.vals[k] else VNull
  }

  function Project(cols: PhpArray, names: seq<string>): (r: PhpArray)
    requires Distinct(names)
  {
    Obj(names, seq(|names|, i requires 0 <= i < |names| => Field(cols, names[i])))
  }

  lemma PublicColumnsDistinct()
    ensures Distinct(PublicColumns)
  {
  }

  /**
   * getUserById: null when no row has the id; otherwise the row's seven
   * public columns in the order of the SELECT, never the password.
   */
  function GetUserById(users: seq<User>, userId: int): (r: Option<PhpArray>)
    ensures r.None? <==> forall i :: 0 <= i < |users| ==> !MatchesAny(users[i], ["id_user_pk"], VInt(userId))
    ensures r.Some? ==> Wf(r.value) && r.value.keys == PublicColumns && !Has(r.value, "password")
  {
    PublicColumnsDistinct();
    match FirstWhere(users, ["id_user_pk"], VInt(userId))
    case None => None
    case Some(i) =>
      var p := Project(users[i].columns, PublicColumns);
      ObjSpec(PublicColumns, seq(|PublicColumns|, k requires 0 <= k < |PublicColumns| => Field(users[i].columns, PublicColumns[k])), 0);
      assert "password" !in PublicColumns;
      Some(p)
  }

  /** The number of rows whose column holds the value (`rowCount` of an UPDATE). */
  function CountWhere(users: seq<User>, column: string, v: Value): (n: nat)
    ensures n <= |users|
    ensures n == 0 <==> forall i :: 0 <= i < |users| ==> !Column(users[i], column, v)
    decreases |users|
  {
    if users == [] then 0
    else
      assert forall j :: 1 <= j < |users| ==> users[1..][j - 1] == users[j];
      (if Column(users[0], column, v) then 1 else 0) + CountWhere(users[1..], column, v)
  }

  /** The columns a password UPDATE writes, in the order of its data array. */
  const PasswordColumns: seq<string> := ["password", "updated_at"]

  /**
   * Both password UPDATEs name plain columns, so PDO prepares them exactly
   * when the WHERE marker is named: with the caller's `?` it refuses them.
   * The operations that run them branch on the marker for that reason.
   */
  lemma PasswordUpdateNames(column: string, m: D.WhereMarker)
    requires column == "id_user_pk" || column == "mail"
    ensures D.UpdatePrepares("users", PasswordColumns, column, m) <==> m.Named?
  {
    assert D.UpdateNames("users", PasswordColumns, column);
    D.PositionalRefused("users", PasswordColumns, column);
    D.NamedPrepares("users", PasswordColumns, column);
  }

  /** `UPDATE users SET password = :password, updated_at = :updated_at WHERE column = ?`, once prepared. */
  function SetPasswordWhere(users: seq<User>, column: string, v: Value, h: PasswordHash, now: int): (r: seq<User>)
    ensures |r| == |users|
  {
    seq(|users|, i requires 0 <= i < |users| =>
      if Column(users[i], column, v) then User(Put(users[i].columns, "updated_at", VInt(now)), h) else users[i])
  }

  /**
   * Setting a password: every row with the value gets the new hash, which
   * verifies exactly the new password, and only its `updated_at` column
   * changes; every other row is as it was, and no row gains a password column.
   */
  lemma SetPasswordSpec(users: seq<User>, column: string, v: Value, password: string, salt: string, now: int, i: nat)
    requires i < |users|
    ensures var r := SetPasswordWhere(users, column, v, HashPassword(password, salt), now);
      && (Column(users[i], column, v) ==>
            (forall p :: PasswordVerify(p, r[i].password) <==> p == password) &&
            Get(r[i].columns, "updated_at") == Some(VInt(now)) &&
            forall k :: k != "updated_at" ==> Get(r[i].columns, k) == Get(users[i].columns, k))
      && (!Column(users[i], column, v) ==> r[i] == users[i])
      && (UsersValid(users) ==> UsersValid(r))
  {
  }

  /** Touching `updated_at` does not change who matches a login identifier. */
  lemma SetPasswordKeepsLogins(users: seq<User>, column: string, v: Value, h: PasswordHash, now: int, identifier: string)
    ensures var r := SetPasswordWhere(users, column, v, h, now);
      forall j :: 0 <= j < |users| ==>
        (MatchesAny(r[j], LoginColumns, VStr(identifier)) <==> MatchesAny(users[j], LoginColumns, VStr(identifier)))
  {
    var r := SetPasswordWhere(users, column, v, h, now);
    forall j | 0 <= j < |users|
      ensures MatchesAny(r[j], LoginColumns, VStr(identifier)) <==> MatchesAny(users[j], LoginColumns, VStr(identifier))
    {
      LoginMatch(r[j], VStr(identifier));
      LoginMatch(users[j], VStr(identifier));
      assert Get(r[j].columns, "username") == Get(users[j].columns, "username");
      assert Get(r[j].columns, "mail") == Get(users[j].columns, "mail");
    }
  }

  /**
   * After a password is set on the row a login identifier resolves to, the
   * new password logs in with that identifier and the old one no longer does
   * (unless they are the same).
   */
  lemma SetPasswordThenLogin(users: seq<User>, column: string, v: Value, password: string, salt: string, now: int,
                             identifier: string, previous: string, i: nat)
    requires FirstLogin(users, identifier, i) && Column(users[i], column, v)
    ensures var r := SetPasswordWhere(users, column, v, HashPassword(password, salt), now);
      && Authenticate(r, identifier, password) == Some(r[i].columns)
      && (previous != password ==> Authenticate(r, identifier, previous).None?)
  {
    var r := SetPasswordWhere(users, column, v, HashPassword(password, salt), now);
    SetPasswordKeepsLogins(users, column, v, HashPassword(password, salt), now, identifier);
    assert FirstLogin(r, identifier, i);
    FirstLoginUnique(r, identifier, i);
  }

  /** The first login match is unique. */
  lemma FirstLoginUnique(users: seq<User>, identifier: string, i: int)
    requires FirstLogin(users, identifier, i)
    ensures forall k :: FirstLogin(users, identifier, k) ==> k == i
  {
  }

  // ---------------------------------------------------------------------------
  // register

  /** The fields register requires, checked in this order. */
  const Required: seq<string> := ["username", "mail", "password"]

  /** `empty($userData[$field])` for one of the required fields. */
  predicate MissingRequired(data: PhpArray) {
    exists i :: 0 <= i < |Required| && MissingOrEmpty(data, Required[i])
  }

  /** The row's column holds the value the data has under `key`. */
  predicate SameField(u: User, column: string, data: PhpArray, key: string) {
    key in data.vals && Column(u, column, data.vals[key])
  }

  /** `SELECT id_user_pk FROM users WHERE username = ? OR mail = ?` with the new username and mail, as written. */
  predicate TakenAsWritten(users: seq<User>, data: PhpArray) {
    exists i :: 0 <= i < |users| && (SameField(users[i], "username", data, "username") || SameField(users[i], "mail", data, "mail"))
  }

  /** Corrected check: the new username or mail is already some user's username or mail. */
  predicate TakenAsIdentifier(users: seq<User>, data: PhpArray) {
    exists i :: 0 <= i < |users| &&
      (("username" in data.vals && MatchesAny(users[i], LoginColumns, data.vals["username"])) ||
       ("mail" in data.vals && MatchesAny(users[i], LoginColumns, data.vals["mail"])))
  }

  /** The columns register inserts: the data without the password, with the defaults and the new id. */
  function NewColumns(data: PhpArray, id: int, now: int): PhpArray {
    Put(Put(Put(Put(Remove(data, "password"), "permission_level", Coalesce(data, "permission_level", VInt(0))),
      "created_at", VInt(now)), "updated_at", VInt(now)), "id_user_pk", VInt(id))
  }

  /**
   * The inserted columns: username and mail as given, `permission_level`
   * defaulting to 0, both timestamps now, the new id, and no password.
   */
  lemma NewColumnsSpec(data: PhpArray, id: int, now: int)
    ensures var c := NewColumns(data, id, now);
      && Get(c, "username") == Get(data, "username") && Get(c, "mail") == Get(data, "mail")
      && Get(c, "permission_level") == Some(if IsSet(data, "permission_level") then data.vals["permission_level"] else VInt(0))
      && Get(c, "created_at") == Some(VInt(now)) && Get(c, "updated_at") == Some(VInt(now))
      && Get(c, "id_user_pk") == Some(VInt(id))
      && !Has(c, "password")
  {
    var c0 := Remove(data, "password");
    PutChain(c0, "permission_level", Coalesce(data, "permission_level", VInt(0)), "created_at", VInt(now),
      "updated_at", VInt(now), "id_user_pk", VInt(id), "username");
    PutChain(c0, "permission_level", Coalesce(data, "permission_level", VInt(0)), "created_at", VInt(now),
      "updated_at", VInt(now), "id_user_pk", VInt(id), "mail");
    PutChain(c0, "permission_level", Coalesce(data, "permission_level", VInt(0)), "created_at", VInt(now),
      "updated_at", VInt(now), "id_user_pk", VInt(id), "password");
    PutChain(c0, "permission_level", Coalesce(data, "permission_level", VInt(0)), "created_at", VInt(now),
      "updated_at", VInt(now), "id_user_pk", VInt(id), "permission_level");
    PutChain(c0, "permission_level", Coalesce(data, "permission_level", VInt(0)), "created_at", VInt(now),
      "updated_at", VInt(now), "id_user_pk", VInt(id), "created_at");
    PutChain(c0, "permission_level", Coalesce(data, "permission_level", VInt(0)), "created_at", VInt(now),
      "updated_at", VInt(now), "id_user_pk", VInt(id), "updated_at");
  }

  /** Four assignments in a row: the last one to the key wins. */
  lemma PutChain(m: PhpArray, k1: string, v1: Value, k2: string, v2: Value, k3: string, v3: Value, k4: string, v4: Value, k: string)
    ensures Get(Put(Put(Put(Put(m, k1, v1), k2, v2), k3, v3), k4, v4), k) ==
      if k == k4 then Some(v4) else if k == k3 then Some(v3) else if k == k2 then Some(v2) else if k == k1 then Some(v1) else Get(m, k)
  {
  }

  /** The row register inserts; None when the password is not a scalar (password_hash raises). */
  function NewUser(data: PhpArray, id: int, salt: string, now: int): Option<User> {
    var pw := TextOf(Coalesce(data, "password", VNull));
    if pw.None? then None else Some(User(NewColumns(data, id, now), HashPassword(pw.value, salt)))
  }

  /** What register returns and the users table after it. */
  datatype Registration = Registration(id: Option<int>, users: seq<User>)

  function Insert(users: seq<User>, taken: bool, data: PhpArray, id: int, salt: string, now: int): Registration {
    if MissingRequired(data) || taken then Registration(None, users)
    else match NewUser(data, id, salt, now)
      case None => Registration(None, users)
      case Some(u) => Registration(Some(id), users + [u])
  }

  /** register with the duplicate check as the source writes it. */
  function RegisterAsWritten(users: seq<User>, nextId: int, data: PhpArray, salt: string, now: int): Registration {
    Insert(users, TakenAsWritten(users, data), data, nextId, salt, now)
  }

  /** Which duplicate check register runs: the source's, or the corrected one. */
  datatype DuplicateCheck = LikeWithLike | AnyIdentifier

  /** register with the given duplicate check. */
  function RegisterChecking(check: DuplicateCheck, users: seq<User>, nextId: int, data: PhpArray, salt: string, now: int): (r: Registration)
    ensures r.id.None? ==> r.users == users
    ensures r.id.Some? ==> r.id.value == nextId && |r.users| == |users| + 1 && r.users[..|users|] == users
  {
    match check
    case LikeWithLike => RegisterAsWritten(users, nextId, data, salt, now)
    case AnyIdentifier => RegisterOutcome(users, nextId, data, salt, now)
  }

  /**
   * Whatever the duplicate check, a register that appends a row under a
   * username no earlier row answers to lets that username log in with the
   * password it was registered with, and with no other: the login query
   * reaches the new row first.
   */
  lemma InsertThenLogin(users: seq<User>, taken: bool, data: PhpArray, nextId: int, salt: string, now: int, name: string, pw: string)
    requires Get(data, "username") == Some(VStr(name)) && Get(data, "password") == Some(VStr(pw))
    requires Insert(users, taken, data, nextId, salt, now).id.Some?
    requires forall j :: 0 <= j < |users| ==> !MatchesAny(users[j], LoginColumns, VStr(name))
    ensures var r := Insert(users, taken, data, nextId, salt, now);
      && |r.users| == |users| + 1
      && Authenticate(r.users, name, pw) == Some(r.users[|users|].columns)
      && forall p :: Authenticate(r.users, name, p).Some? <==> p == pw
  {
    var r := Insert(users, taken, data, nextId, salt, now);
    var u := NewUser(data, nextId, salt, now).value;
    assert r.users == users + [u];
    NewColumnsSpec(data, nextId, now);
    LoginMatch(u, VStr(name));
    assert FirstLogin(r.users, name, |users|) by {
      forall j | 0 <= j < |users| ensures !MatchesAny(r.users[j], LoginColumns, VStr(name)) {
        assert r.users[j] == users[j];
      }
    }
    FirstLoginUnique(r.users, name, |users|);
  }

  /**
   * register with the corrected duplicate check: null and no insert when a
   * required field is empty or the username or mail is already used as an
   * identifier; otherwise one row appended under the next id.
   */
  function RegisterOutcome(users: seq<User>, nextId: int, data: PhpArray, salt: string, now: int): (r: Registration)
    ensures MissingRequired(data) || TakenAsIdentifier(users, data) ==> r == Registration(None, users)
    ensures r.id.None? ==> r.users == users
    ensures r.id.Some? ==> r.id.value == nextId && |r.users| == |users| + 1 && r.users[..|users|] == users
  {
    Insert(users, TakenAsIdentifier(users, data), data, nextId, salt, now)
  }

  /**
   * A successful register stores the hash of the given password, never the
   * plaintext as a column, and defaults `permission_level` to 0; the table
   * stays free of password columns.
   */
  lemma RegisterStoresHash(users: seq<User>, nextId: int, data: PhpArray, salt: string, now: int, pw: string)
    requires Get(data, "password") == Some(VStr(pw))
    requires RegisterOutcome(users, nextId, data, salt, now).id.Some?
    ensures var r := RegisterOutcome(users, nextId, data, salt, now);
      var u := r.users[|users|];
      && (forall p :: PasswordVerify(p, u.password) <==> p == pw)
      && !Has(u.columns, "password")
      && Get(u.columns, "permission_level") == Some(if IsSet(data, "permission_level") then data.vals["permission_level"] else VInt(0))
      && (UsersValid(users) ==> UsersValid(r.users))
  {
    NewColumnsSpec(data, nextId, now);
  }

  /** No value is an identifier of two different users. */
  ghost predicate UniqueLogins(users: seq<User>) {
    forall i, j, v :: 0 <= i < j < |users| && MatchesAny(users[i], LoginColumns, v) ==> !MatchesAny(users[j], LoginColumns, v)
  }

  /** A value that identifies the new row is its username or its mail. */
  lemma NewRowIdentifiers(data: PhpArray, id: int, salt: string, now: int, u: User, v: Value)
    requires NewUser(data, id, salt, now) == Some(u) && MatchesAny(u, LoginColumns, v)
    ensures ("username" in data.vals && v == data.vals["username"]) || ("mail" in data.vals && v == data.vals["mail"])
  {
    NewColumnsSpec(data, id, now);
    LoginMatch(u, v);
  }

  /** With the corrected check, a successful register keeps every identifier unique. */
  lemma RegisterKeepsLoginsUnique(users: seq<User>, nextId: int, data: PhpArray, salt: string, now: int)
    requires UniqueLogins(users)
    ensures UniqueLogins(RegisterOutcome(users, nextId, data, salt, now).users)
  {
    var r := RegisterOutcome(users, nextId, data, salt, now);
    if r.id.Some? {
      var u := r.users[|users|];
      assert NewUser(data, nextId, salt, now) == Some(u);
      forall i, j, v | 0 <= i < j < |r.users| && MatchesAny(r.users[i], LoginColumns, v)
        ensures !MatchesAny(r.users[j], LoginColumns, v)
      {
        assert r.users[i] == users[i];
        if j == |users| {
          if MatchesAny(u, LoginColumns, v) {
            NewRowIdentifiers(data, nextId, salt, now, u, v);
            assert TakenAsIdentifier(users, data);
          }
        } else {
          assert r.users[j] == users[j];
        }
      }
    }
  }

  /**
   * Register, then log in: with the corrected check, a user who registered
   * with a username and password logs in with that username and password and
   * gets the new row; the same holds for the mail. No other password
   * opens the username.
   */
  lemma RegisterThenLogin(users: seq<User>, nextId: int, data: PhpArray, salt: string, now: int, name: string, mail: string, pw: string)
    requires Get(data, "username") == Some(VStr(name)) && Get(data, "mail") == Some(VStr(mail))
    requires Get(data, "password") == Some(VStr(pw))
    requires RegisterOutcome(users, nextId, data, salt, now).id.Some?
    ensures var r := RegisterOutcome(users, nextId, data, salt, now);
      && Authenticate(r.users, name, pw) == Some(r.users[|users|].columns)
      && Authenticate(r.users, mail, pw) == Some(r.users[|users|].columns)
      && forall p :: Authenticate(r.users, name, p).Some? <==> p == pw
  {
    var r := RegisterOutcome(users, nextId, data, salt, now);
    var u := r.users[|users|];
    RegisterStoresHash(users, nextId, data, salt, now, pw);
    NewColumnsSpec(data, nextId, now);
    LoginMatch(u, VStr(name));
    LoginMatch(u, VStr(mail));
    assert !TakenAsIdentifier(users, data);
    assert FirstLogin(r.users, name, |users|) by {
      forall j | 0 <= j < |users| ensures !MatchesAny(r.users[j], LoginColumns, VStr(name)) {
        assert r.users[j] == users[j];
      }
    }
    assert FirstLogin(r.users, mail, |users|) by {
      forall j | 0 <= j < |users| ensures !MatchesAny(r.users[j], LoginColumns, VStr(mail)) {
        assert r.users[j] == users[j];
      }
    }
    FirstLoginUnique(r.users, name, |users|);
    FirstLoginUnique(r.users, mail, |users|);
  }

  /** Alice's row. */
  function Alice(): User {
    User(OrderedMap(["username", "mail"], map["username" := VStr("alice"), "mail" := VStr("a@x.io")]), HashPassword("secret1", "s1"))
  }

  /** Bob signs up with Alice's mail as his username. */
  function BobSignup(): PhpArray {
    OrderedMap(["username", "mail", "password"], map["username" := VStr("a@x.io"), "mail" := VStr("b@x.io"), "password" := VStr("secret2")])
  }

  /**
   * The check as written lets Bob register under Alice's mail as his
   * username, and Bob then cannot log in with that username and his own
   * password: the login query finds Alice's row first. The corrected check
   * refuses the registration.
   */
  lemma CrossIdentifierLockout()
    ensures var r := RegisterAsWritten([Alice()], 2, BobSignup(), "s2", 0);
      && r.id == Some(2)
      && Column(r.users[1], "username", VStr("a@x.io")) && PasswordVerify("secret2", r.users[1].password)
      && Authenticate(r.users, "a@x.io", "secret2").None?
    ensures RegisterOutcome([Alice()], 2, BobSignup(), "s2", 0).id.None?
  {
    var data := BobSignup();
    assert !MissingRequired(data) by {
      assert !MissingOrEmpty(data, "username") && !MissingOrEmpty(data, "mail") && !MissingOrEmpty(data, "password");
    }
    assert !TakenAsWritten([Alice()], data) by {
      assert !SameField(Alice(), "username", data, "username");
      assert !SameField(Alice(), "mail", data, "mail");
    }
    var r := RegisterAsWritten([Alice()], 2, data, "s2", 0);
    var bob := r.users[1];
    NewColumnsSpec(data, 2, 0);
    assert Column(bob, "username", VStr("a@x.io"));
    assert Column(Alice(), "mail", VStr("a@x.io"));
    LoginMatch(Alice(), VStr("a@x.io"));
    LoginMatch(bob, VStr("a@x.io"));
    FirstMatchDecides(r.users, "a@x.io", "secret2", 0, 1);
    assert TakenAsIdentifier([Alice()], data) by {
      assert MatchesAny([Alice()][0], LoginColumns, data.vals["username"]);
    }
  }

  // ---------------------------------------------------------------------------
  // The JWT payload

  const PayloadKeys: seq<string> := ["iss", "aud", "iat", "exp", "user_id", "username", "email", "permission_level"]

  lemma PayloadKeysDistinct()
    ensures Distinct(PayloadKeys)
  {
  }

  function PayloadValues(issuer: Value, audience: Value, ttl: int, user: PhpArray, now: int): (s: seq<Value>)
    ensures |s| == |PayloadKeys|
  {
    [issuer, audience, VInt(now), VInt(now + ttl), Field(user, "id_user_pk"), Field(user, "username"),
     Field(user, "mail"), Coalesce(user, "permission_level", VInt(0))]
  }

  /** generateToken: the claims signed into the token. */
  function TokenPayload(issuer: Value, audience: Value, ttl: int, user: PhpArray, now: int): PhpArray {
    PayloadKeysDistinct();
    Obj(PayloadKeys, PayloadValues(issuer, audience, ttl, user, now))
  }

  /**
   * The payload has the eight claims in order; it is issued now and expires
   * `jwt.expires_in` seconds later; `user_id` and `email` come from the
   * row's `id_user_pk` and `mail`, and `permission_level` defaults to 0.
   */
  lemma TokenPayloadSpec(issuer: Value, audience: Value, ttl: int, user: PhpArray, now: int)
    ensures var p := TokenPayload(issuer, audience, ttl, user, now);
      && Wf(p) && p.keys == PayloadKeys
      && Get(p, "iat") == Some(VInt(now)) && Get(p, "exp") == Some(VInt(now + ttl))
      && Get(p, "user_id") == Some(Field(user, "id_user_pk")) && Get(p, "email") == Some(Field(user, "mail"))
      && Get(p, "permission_level") == Some(if IsSet(user, "permission_level") then user.vals["permission_level"] else VInt(0))
  {
    PayloadKeysDistinct();
    var vs := PayloadValues(issuer, audience, ttl, user, now);
    ObjSpec(PayloadKeys, vs, 2);
    ObjSpec(PayloadKeys, vs, 3);
    ObjSpec(PayloadKeys, vs, 4);
    ObjSpec(PayloadKeys, vs, 6);
    ObjSpec(PayloadKeys, vs, 7);
  }

  // ---------------------------------------------------------------------------
  // Sessions

  /** createSession: one row appended, expiring `ttl` seconds from now. */
  function WithSession(sessions: seq<Session>, id: int, userId: int, token: string, now: int, ttl: int): seq<Session> {
    sessions + [Session(id, userId, token, now, now + ttl)]
  }

  /** isSessionValid: some row has the token and expires after now. */
  predicate SessionValid(sessions: seq<Session>, token: string, now: int) {
    exists i :: 0 <= i < |sessions| && sessions[i].token == token && sessions[i].expiresAt > now
  }

  /**
   * A created session opens the authentication gate for its user and token,
   * and is valid from now until `ttl` seconds later; every earlier row stays.
   */
  lemma CreatedSessionOpens(sessions: seq<Session>, id: int, userId: int, token: string, now: int, ttl: int, t: int)
    ensures var r := WithSession(sessions, id, userId, token, now, ttl);
      && |r| == |sessions| + 1 && r[..|sessions|] == sessions
      && HasSession(r, Some(userId), token)
      && (now <= t < now + ttl ==> SessionValid(r, token, t))
  {
    var r := WithSession(sessions, id, userId, token, now, ttl);
    assert r[|sessions|].token == token;
  }

  /**
   * destroySession: afterwards no row has the token, so the gate is closed
   * for it whoever claims it; a second call changes nothing; rows with other
   * tokens stay.
   */
  lemma {:induction false} DestroyCloses(sessions: seq<Session>, token: string, userId: Option<int>, now: int)
    ensures !HasSession(DeleteByToken(sessions, token), userId, token)
    ensures !SessionValid(DeleteByToken(sessions, token), token, now)
    ensures DeleteByToken(DeleteByToken(sessions, token), token) == DeleteByToken(sessions, token)
    decreases |sessions|
  {
    var r := DeleteByToken(sessions, token);
    assert forall i :: 0 <= i < |r| ==> r[i] in r;
    if sessions != [] {
      DestroyCloses(sessions[1..], token, userId, now);
    }
  }

  /** `DELETE FROM sessions WHERE id_user_fk = ?`: the rows left, in order. */
  function DeleteByUser(sessions: seq<Session>, userId: int): (r: seq<Session>)
    decreases |sessions|
  {
    if sessions == [] then []
    else if sessions[0].userId == userId then DeleteByUser(sessions[1..], userId)
    else [sessions[0]] + DeleteByUser(sessions[1..], userId)
  }

  /** destroyAllUserSessions removes exactly that user's rows: no session of the user is left, others stay. */
  lemma {:induction false} DeleteByUserSpec(sessions: seq<Session>, userId: int)
    ensures forall s :: s in DeleteByUser(sessions, userId) <==> s in sessions && s.userId != userId
    ensures forall t :: !HasSession(DeleteByUser(sessions, userId), Some(userId), t)
    decreases |sessions|
  {
    if sessions != [] {
      DeleteByUserSpec(sessions[1..], userId);
      assert forall s :: s in sessions <==> s == sessions[0] || s in sessions[1..];
    }
    var r := DeleteByUser(sessions, userId);
    forall t ensures !HasSession(r, Some(userId), t) {
      forall i | 0 <= i < |r| ensures r[i].userId != userId {
        assert r[i] in r;
      }
    }
  }

  /** `DELETE FROM sessions WHERE expires_at < NOW()`: the rows left, in order. */
  function ExpireSessions(sessions: seq<Session>, now: int): (r: seq<Session>)
    ensures |r| <= |sessions|
    decreases |sessions|
  {
    if sessions == [] then []
    else if sessions[0].expiresAt < now then ExpireSessions(sessions[1..], now)
    else [sessions[0]] + ExpireSessions(sessions[1..], now)
  }

  /**
   * cleanExpiredSessions removes exactly the rows that expired before now,
   * and so keeps the validity of every token at now and later.
   */
  lemma {:induction false} ExpireSessionsSpec(sessions: seq<Session>, now: int, token: string, t: int)
    requires t >= now
    ensures forall s :: s in ExpireSessions(sessions, now) <==> s in sessions && s.expiresAt >= now
    ensures SessionValid(ExpireSessions(sessions, now), token, t) <==> SessionValid(sessions, token, t)
    decreases |sessions|
  {
    var r := ExpireSessions(sessions, now);
    if sessions != [] {
      ExpireSessionsSpec(sessions[1..], now, token, t);
      assert forall s :: s in sessions <==> s == sessions[0] || s in sessions[1..];
    }
    if SessionValid(sessions, token, t) {
      var i :| 0 <= i < |sessions| && sessions[i].token == token && sessions[i].expiresAt > t;
      assert sessions[i] in r;
      var j :| 0 <= j < |r| && r[j] == sessions[i];
    }
    if SessionValid(r, token, t) {
      var j :| 0 <= j < |r| && r[j].token == token && r[j].expiresAt > t;
      assert r[j] in r;
      var i :| 0 <= i < |sessions| && sessions[i] == r[j];
    }
  }

  // ---------------------------------------------------------------------------
  // Password resets

  /** A row of `password_resets`. */
  datatype Reset = Reset(email: string, token: string, createdAt: int, expiresAt: int)

  type Byte = b: int | 0 <= b < 256

  /** One lowercase hexadecimal digit. */
  function HexDigit(d: nat): (c: char)
    requires d < 16
    ensures '0' <= c <= '9' || 'a' <= c <= 'f'
  {
    if d < 10 then (48 + d) as char else (87 + d) as char
  }

  function HexDigitValue(c: char): nat {
    if '0' <= c <= '9' then c as int - 48
    else if 'a' <= c <= 'f' then c as int - 87
    else 0
  }

  /** `bin2hex`: two lowercase hexadecimal digits per byte, high nibble first. */
  function Hex(bytes: seq<Byte>): (s: string)
    ensures |s| == 2 * |bytes|
    ensures forall i :: 0 <= i < |s| ==> '0' <= s[i] <= '9' || 'a' <= s[i] <= 'f'
    decreases |bytes|
  {
    if bytes == [] then ""
    else [HexDigit(bytes[0] / 16), HexDigit(bytes[0] % 16)] + Hex(bytes[1..])
  }

  /** Reads back the bytes of a hexadecimal text (`hex2bin`). */
  function Unhex(s: string): seq<int>
    decreases |s|
  {
    if |s| < 2 then [] else [16 * HexDigitValue(s[0]) + HexDigitValue(s[1])] + Unhex(s[2..])
  }

  /** The token text determines the random bytes: `hex2bin(bin2hex($b)) == $b`. */
  lemma {:induction false} HexRoundTrip(bytes: seq<Byte>)
    ensures Unhex(Hex(bytes)) == bytes
    decreases |bytes|
  {
    if bytes != [] {
      var b := bytes[0];
      assert HexDigitValue(HexDigit(b / 16)) == b / 16;
      assert HexDigitValue(HexDigit(b % 16)) == b % 16;
      HexRoundTrip(bytes[1..]);
      assert Hex(bytes)[2..] == Hex(bytes[1..]);
    }
  }

  /** What generatePasswordResetToken returns and the resets table after it. */
  datatype Issued = Issued(token: Option<string>, resets: seq<Reset>)

  /** How long a reset token is valid, in seconds. */
  const ResetLifetime := 3600

  /** generatePasswordResetToken: null and no row for an unknown mail; otherwise the hex token, stored for an hour. */
  function IssueReset(users: seq<User>, resets: seq<Reset>, email: string, bytes: seq<Byte>, now: int): (r: Issued)
    ensures FirstWhere(users, ["mail"], VStr(email)).None? <==> r.token.None?
    ensures r.token.None? ==> r.resets == resets
    ensures r.token.Some? ==> r.resets == resets + [Reset(email, r.token.value, now, now + ResetLifetime)]
    ensures r.token.Some? && |bytes| == 32 ==>
      |r.token.value| == 64 && forall i :: 0 <= i < 64 ==> '0' <= r.token.value[i] <= '9' || 'a' <= r.token.value[i] <= 'f'
  {
    if FirstWhere(users, ["mail"], VStr(email)).None? then Issued(None, resets)
    else
      var token := Hex(bytes);
      Issued(Some(token), resets + [Reset(email, token, now, now + ResetLifetime)])
  }

  /** The row can still be used: it has the token and expires after now. */
  predicate Live(r: Reset, token: string, now: int) {
    r.token == token && r.expiresAt > now
  }

  /** verifyPasswordResetToken: the email of the first live row with the token. */
  function ResetEmail(resets: seq<Reset>, token: string, now: int): (r: Option<string>)
    ensures r.None? <==> forall i :: 0 <= i < |resets| ==> !Live(resets[i], token, now)
    ensures r.Some? ==> exists i :: 0 <= i < |resets| && Live(resets[i], token, now) && resets[i].email == r.value
    decreases |resets|
  {
    if resets == [] then None
    else if Live(resets[0], token, now) then Some(resets[0].email)
    else
      assert forall j :: 1 <= j < |resets| ==> resets[1..][j - 1] == resets[j];
      ResetEmail(resets[1..], token, now)
  }

  /** When no older row is live, a live row appended holds the mail the token verifies to. */
  lemma {:induction false} ResetEmailFirst(resets: seq<Reset>, x: Reset, token: string, now: int)
    requires forall i :: 0 <= i < |resets| ==> !Live(resets[i], token, now)
    requires Live(x, token, now)
    ensures ResetEmail(resets + [x], token, now) == Some(x.email)
    decreases |resets|
  {
    if resets == [] {
      assert resets + [x] == [x];
    } else {
      assert forall i :: 0 <= i < |resets[1..]| ==> resets[1..][i] == resets[i + 1];
      ResetEmailFirst(resets[1..], x, token, now);
      assert (resets + [x])[1..] == resets[1..] + [x];
    }
  }

  /** A freshly issued token verifies to its mail for the hour it lives, even when older rows exist. */
  lemma IssuedTokenVerifies(users: seq<User>, resets: seq<Reset>, email: string, bytes: seq<Byte>, now: int, t: int)
    requires IssueReset(users, resets, email, bytes, now).token.Some?
    requires now <= t < now + ResetLifetime
    ensures var r := IssueReset(users, resets, email, bytes, now);
      ResetEmail(r.resets, r.token.value, t).Some?
  {
    var r := IssueReset(users, resets, email, bytes, now);
    assert Live(r.resets[|resets|], r.token.value, t);
  }

  /** `DELETE FROM password_resets WHERE token = ?`. */
  function DeleteResets(resets: seq<Reset>, token: string): (r: seq<Reset>)
    ensures forall x :: x in r <==> x in resets && x.token != token
    decreases |resets|
  {
    if resets == [] then []
    else if resets[0].token == token then DeleteResets(resets[1..], token)
    else [resets[0]] + DeleteResets(resets[1..], token)
  }

  /** What resetPasswordWithToken returns and both tables after it. */
  datatype ResetResult = ResetResult(ok: bool, users: seq<User>, resets: seq<Reset>)

  /**
   * resetPasswordWithToken, with the WHERE marker of its UPDATE: false and
   * nothing changed when no live row has the token, when its email is falsy,
   * when PDO refuses to prepare the UPDATE (exactly when the marker is
   * positional, as written with `mail = ?`, by PasswordUpdateNames; the
   * exception is caught), or when no user has that mail;
   * otherwise every user with the mail gets the new password and every row
   * with the token is deleted.
   */
  function ResetOutcome(m: D.WhereMarker, users: seq<User>, resets: seq<Reset>, token: string, password: string, salt: string, now: int): (r: ResetResult)
    ensures (forall i :: 0 <= i < |resets| ==> !Live(resets[i], token, now)) ==> r == ResetResult(false, users, resets)
    ensures !r.ok ==> r.users == users && r.resets == resets
    ensures |r.users| == |users|
    ensures r.ok ==> forall i :: 0 <= i < |r.resets| ==> r.resets[i].token != token
    ensures UsersValid(users) ==> UsersValid(r.users)
  {
    var email := ResetEmail(resets, token, now);
    if email.None? || IsEmpty(VStr(email.value)) then ResetResult(false, users, resets)
    else if m.Positional? then ResetResult(false, users, resets)
    else if CountWhere(users, "mail", VStr(email.value)) > 0 then
      var r := DeleteResets(resets, token);
      assert forall i :: 0 <= i < |r| ==> r[i] in r;
      ResetResult(true, SetPasswordWhere(users, "mail", VStr(email.value), HashPassword(password, salt), now), r)
    else ResetResult(false, users, resets)
  }

  /** As written, `mail = ?` mixes markers: every reset fails and changes nothing. */
  lemma ResetRefusedAsWritten(users: seq<User>, resets: seq<Reset>, token: string, password: string, salt: string, now: int)
    ensures !D.UpdatePrepares("users", PasswordColumns, "mail", D.Positional)
    ensures ResetOutcome(D.Positional, users, resets, token, password, salt, now) == ResetResult(false, users, resets)
  {
    PasswordUpdateNames("mail", D.Positional);
  }

  /** A reset token works once: a second reset with it fails, whatever the password and the time. */
  lemma ResetSingleUse(m: D.WhereMarker, users: seq<User>, resets: seq<Reset>, token: string, password: string, salt: string, now: int,
                       password': string, salt': string, now': int)
    requires ResetOutcome(m, users, resets, token, password, salt, now).ok
    ensures var r := ResetOutcome(m, users, resets, token, password, salt, now);
      ResetOutcome(m, r.users, r.resets, token, password', salt', now') == ResetResult(false, r.users, r.resets)
  {
  }

  /** After a successful reset, the user with the token's mail verifies the new password. */
  lemma ResetSetsPassword(m: D.WhereMarker, users: seq<User>, resets: seq<Reset>, token: string, password: string, salt: string, now: int, i: nat)
    requires i < |users|
    requires ResetOutcome(m, users, resets, token, password, salt, now).ok
    requires ResetEmail(resets, token, now).Some? && Column(users[i], "mail", VStr(ResetEmail(resets, token, now).value))
    ensures forall p :: PasswordVerify(p, ResetOutcome(m, users, resets, token, password, salt, now).users[i].password) <==> p == password
  {
    SetPasswordSpec(users, "mail", VStr(ResetEmail(resets, token, now).value), password, salt, now, i);
  }

  /** `DELETE FROM password_resets WHERE expires_at < NOW()`. */
  function ExpireResets(resets: seq<Reset>, now: int): (r: seq<Reset>)
    ensures |r| <= |resets|
    ensures forall x :: x in r <==> x in resets && x.expiresAt >= now
    decreases |resets|
  {
    if resets == [] then []
    else if resets[0].expiresAt < now then ExpireResets(resets[1..], now)
    else [resets[0]] + ExpireResets(resets[1..], now)
  }

  /** Cleaning expired reset rows never changes what a token verifies to at now or later. */
  lemma {:induction false} ExpireResetsKeepsTokens(resets: seq<Reset>, now: int, token: string, t: int)
    requires t >= now
    ensures ResetEmail(ExpireResets(resets, now), token, t) == ResetEmail(resets, token, t)
    decreases |resets|
  {
    if resets != [] {
      ExpireResetsKeepsTokens(resets[1..], now, token, t);
    }
  }

  // ---------------------------------------------------------------------------
  // updateUserProfile

  /** `unset($data['password'], $data['id_user_pk'], $data['created_at'])`. */
  function ProfileChanges(data: PhpArray): PhpArray {
    Remove(Remove(Remove(data, "password"), "id_user_pk"), "created_at")
  }

  /** `$row[$k] = $v` for each key of the list, in order. */
  function Overlay(cols: PhpArray, ks: seq<string>, vals: map<string, Value>): PhpArray
    decreases |ks|
  {
    if ks == [] then cols
    else Overlay(Put(cols, ks[0], if ks[0] in vals then vals[ks[0]] else VNull), ks[1..], vals)
  }

  /** A listed key takes the new value; every other key keeps its old one. */
  lemma {:induction false} OverlayGet(cols: PhpArray, ks: seq<string>, vals: map<string, Value>, k: string)
    ensures Get(Overlay(cols, ks, vals), k) == if k in ks then Some(if k in vals then vals[k] else VNull) else Get(cols, k)
    decreases |ks|
  {
    if ks != [] {
      OverlayGet(Put(cols, ks[0], if ks[0] in vals then vals[ks[0]] else VNull), ks[1..], vals, k);
      assert k in ks <==> k == ks[0] || k in ks[1..];
    }
  }

  /** What updateUserProfile returns and the users table after it. */
  datatype ProfileResult = ProfileResult(ok: bool, users: seq<User>)

  /** The columns the update writes: the data without the protected fields, plus `updated_at`. */
  function ProfileSet(data: PhpArray, now: int): PhpArray {
    Put(ProfileChanges(data), "updated_at", VInt(now))
  }

  /** Every key of the array is a plain column name. */
  predicate ColumnKeys(a: PhpArray) {
    forall k :: k in a.keys ==> D.IsColumnName(k)
  }

  /**
   * When the remaining fields are plain column names, so is every column of
   * the profile UPDATE: as written, with `id_user_pk = ?`, PDO refuses it, and
   * with a named WHERE marker it prepares it.
   */
  lemma ProfileUpdateNames(data: PhpArray, now: int)
    ensures ColumnKeys(ProfileChanges(data)) && ProfileChanges(data).keys != [] ==>
              !D.UpdatePrepares("users", ProfileSet(data, now).keys, "id_user_pk", D.Positional)
    ensures ColumnKeys(ProfileChanges(data)) ==> D.UpdatePrepares("users", ProfileSet(data, now).keys, "id_user_pk", D.Named)
  {
    if !ColumnKeys(ProfileChanges(data)) {
      return;
    }
    var ks := ProfileSet(data, now).keys;
    assert forall k :: k in ks ==> k in ProfileChanges(data).keys || k == "updated_at";
    assert D.IsColumnName("updated_at");
    assert D.UpdateNames("users", ks, "id_user_pk");
    if ProfileChanges(data).keys != [] {
      assert ProfileChanges(data).keys[0] in ks;
      D.PositionalRefused("users", ks, "id_user_pk");
    }
    D.NamedPrepares("users", ks, "id_user_pk");
  }

  /**
   * updateUserProfile, with the WHERE marker of its UPDATE: false and nothing
   * changed when no field remains or when PDO refuses to prepare the UPDATE
   * (as written, with `id_user_pk = ?`, it does for plain column names: the
   * exception is caught); otherwise the rows with the id are updated, and the
   * answer is whether there was one.
   */
  function ProfileOutcome(m: D.WhereMarker, users: seq<User>, userId: int, data: PhpArray, now: int): (r: ProfileResult)
    ensures ProfileChanges(data).keys == [] ==> r == ProfileResult(false, users)
    ensures |r.users| == |users|
    ensures r.ok <==> ProfileChanges(data).keys != [] && D.UpdatePrepares("users", ProfileSet(data, now).keys, "id_user_pk", m)
                      && CountWhere(users, "id_user_pk", VInt(userId)) > 0
  {
    if ProfileChanges(data).keys == [] then ProfileResult(false, users)
    else if !D.UpdatePrepares("users", ProfileSet(data, now).keys, "id_user_pk", m) then
      ProfileResult(false, users)
    else
      var writes := ProfileSet(data, now);
      ProfileResult(CountWhere(users, "id_user_pk", VInt(userId)) > 0,
        seq(|users|, i requires 0 <= i < |users| =>
          if Column(users[i], "id_user_pk", VInt(userId)) then User(Overlay(users[i].columns, writes.keys, writes.vals), users[i].password)
          else users[i]))
  }

  /** None of the protected fields is written by a profile update. */
  lemma ProfileSetKeys(data: PhpArray, now: int)
    ensures var ks := ProfileSet(data, now).keys;
      "password" !in ks && "id_user_pk" !in ks && "created_at" !in ks
  {
    assert "updated_at" != "password" && "updated_at" != "id_user_pk" && "updated_at" != "created_at";
  }

  /**
   * As written, `id_user_pk = ?` mixes markers: a profile update whose fields
   * are plain column names fails and changes nothing. With a named marker it
   * succeeds exactly when a field remains and a row has the id.
   */
  lemma ProfileBinding(users: seq<User>, userId: int, data: PhpArray, now: int)
    requires ColumnKeys(ProfileChanges(data))
    ensures ProfileOutcome(D.Positional, users, userId, data, now) == ProfileResult(false, users)
    ensures ProfileOutcome(D.Named, users, userId, data, now).ok <==>
              ProfileChanges(data).keys != [] && CountWhere(users, "id_user_pk", VInt(userId)) > 0
  {
    ProfileUpdateNames(data, now);
  }

  /**
   * A profile update never touches the password, the id or the creation
   * time; it writes each remaining field and `updated_at` on the rows with
   * the id; every other row is unchanged; the table stays free of password
   * columns.
   */
  lemma ProfileProtects(m: D.WhereMarker, users: seq<User>, userId: int, data: PhpArray, now: int, i: nat, k: string)
    requires i < |users|
    ensures var r := ProfileOutcome(m, users, userId, data, now).users;
      && r[i].password == users[i].password
      && Get(r[i].columns, "id_user_pk") == Get(users[i].columns, "id_user_pk")
      && Get(r[i].columns, "created_at") == Get(users[i].columns, "created_at")
      && (!Column(users[i], "id_user_pk", VInt(userId)) ==> r[i] == users[i])
      && (ProfileChanges(data).keys != [] && D.UpdatePrepares("users", ProfileSet(data, now).keys, "id_user_pk", m) &&
          Column(users[i], "id_user_pk", VInt(userId)) && k in ProfileChanges(data).keys && k != "updated_at" && k in data.vals ==>
            Get(r[i].columns, k) == Some(data.vals[k]))
      && (!Has(users[i].columns, "password") ==> !Has(r[i].columns, "password"))
  {
    if ProfileChanges(data).keys != [] && D.UpdatePrepares("users", ProfileSet(data, now).keys, "id_user_pk", m) &&
       Column(users[i], "id_user_pk", VInt(userId)) {
      var writes := ProfileSet(data, now);
      ProfileSetKeys(data, now);
      OverlayGet(users[i].columns, writes.keys, writes.vals, "id_user_pk");
      OverlayGet(users[i].columns, writes.keys, writes.vals, "created_at");
      OverlayGet(users[i].columns, writes.keys, writes.vals, "password");
      OverlayGet(users[i].columns, writes.keys, writes.vals, k);
    }
  }

  /** A profile update keeps the users table free of password columns. */
  lemma ProfileKeepsValid(m: D.WhereMarker, users: seq<User>, userId: int, data: PhpArray, now: int)
    requires UsersValid(users)
    ensures UsersValid(ProfileOutcome(m, users, userId, data, now).users)
  {
    forall i | 0 <= i < |users| ensures !Has(ProfileOutcome(m, users, userId, data, now).users[i].columns, "password") {
      ProfileProtects(m, users, userId, data, now, i, "password");
    }
  }

  // ---------------------------------------------------------------------------
  // The service and its tables

  class AuthService {
    var users: seq<User>
    var sessions: seq<Session>
    var resets: seq<Reset>
    /** The next AUTO_INCREMENT values of `users` and `sessions`. */
    var nextUserId: int
    var nextSessionId: int
    /** `jwt.expires_in`, `jwt.issuer` and `jwt.audience` from the configuration. */
    const ttl: int
    const issuer: Value
    const audience: Value

    ghost predicate Valid()
      reads this
    {
      UsersValid(users)
    }

    constructor (ttl: int, issuer: Value, audience: Value)
      ensures Valid() && users == [] && sessions == [] && resets == []
      ensures nextUserId == 1 && nextSessionId == 1
      ensures this.ttl == ttl && this.issuer == issuer && this.audience == audience
    {
      users := [];
      sessions := [];
      resets := [];
      nextUserId := 1;
      nextSessionId := 1;
      this.ttl := ttl;
      this.issuer := issuer;
      this.audience := audience;
    }

    /** createSession: false and no row when the insert raises; otherwise one row expiring `ttl` seconds from now. */
    method CreateSession(userId: int, token: string, now: int, raises: bool) returns (ok: bool)
      modifies this
      ensures ok == !raises
      ensures sessions == if raises then old(sessions) else WithSession(old(sessions), old(nextSessionId), userId, token, now, ttl)
      ensures nextSessionId == if raises then old(nextSessionId) else old(nextSessionId) + 1
      ensures users == old(users) && resets == old(resets) && nextUserId == old(nextUserId)
    {
      if raises {
        return false;
      }
      sessions := WithSession(sessions, nextSessionId, userId, token, now, ttl);
      nextSessionId := nextSessionId + 1;
      ok := true;
    }

    /** destroySession: every row with the token goes; true even when there was none. */
    method DestroySession(token: string) returns (ok: bool)
      modifies this
      ensures ok && sessions == DeleteByToken(old(sessions), token)
      ensures users == old(users) && resets == old(resets)
      ensures nextUserId == old(nextUserId) && nextSessionId == old(nextSessionId)
    {
      sessions := DeleteByToken(sessions, token);
      ok := true;
    }

    /** destroyAllUserSessions: every row of the user goes. */
    method DestroyAllUserSessions(userId: int) returns (ok: bool)
      modifies this
      ensures ok && sessions == DeleteByUser(old(sessions), userId)
      ensures users == old(users) && resets == old(resets)
      ensures nextUserId == old(nextUserId) && nextSessionId == old(nextSessionId)
    {
      sessions := DeleteByUser(sessions, userId);
      ok := true;
    }

    /**
     * register: the required fields are checked in order, then the
     * (corrected) duplicate check; on success one row is inserted under the
     * next id, which is returned.
     */
    method Register(userData: PhpArray, salt: string, now: int) returns (id: Option<int>)
      requires Valid()
      modifies this
      ensures Valid()
      ensures var r := RegisterOutcome(old(users), old(nextUserId), userData, salt, now);
        id == r.id && users == r.users
      ensures nextUserId == if id.Some? then old(nextUserId) + 1 else old(nextUserId)
      ensures sessions == old(sessions) && resets == old(resets) && nextSessionId == old(nextSessionId)
    {
      var i := 0;
      while i < |Required|
        invariant 0 <= i <= |Required|
        invariant forall j :: 0 <= j < i ==> !MissingOrEmpty(userData, Required[j])
      {
        if MissingOrEmpty(userData, Required[i]) {
          return None;
        }
        i := i + 1;
      }
      if TakenAsIdentifier(users, userData) {
        return None;
      }
      var u := NewUser(userData, nextUserId, salt, now);
      if u.None? {
        return None;
      }
      NewColumnsSpec(userData, nextUserId, now);
      users := users + [u.value];
      id := Some(nextUserId);
      nextUserId := nextUserId + 1;
    }

    /**
     * updatePassword, with the WHERE marker of its UPDATE: as written
     * (`id_user_pk = ?`) PDO refuses the statement, so false and nothing
     * changes; with a named marker the rows with the id get the new hash, and
     * the answer is whether there was one.
     */
    method UpdatePassword(m: D.WhereMarker, userId: int, password: string, salt: string, now: int) returns (ok: bool)
      requires Valid()
      modifies this
      ensures Valid()
      ensures m.Positional? ==> !ok && users == old(users)
      ensures m.Named? ==> (ok <==> CountWhere(old(users), "id_user_pk", VInt(userId)) > 0)
      ensures m.Named? ==> users == SetPasswordWhere(old(users), "id_user_pk", VInt(userId), HashPassword(password, salt), now)
      ensures sessions == old(sessions) && resets == old(resets)
      ensures nextUserId == old(nextUserId) && nextSessionId == old(nextSessionId)
    {
      if m.Positional? {
        // PDO refuses the statement (PasswordUpdateNames) and the exception is caught.
        return false;
      }
      ok := CountWhere(users, "id_user_pk", VInt(userId)) > 0;
      users := SetPasswordWhere(users, "id_user_pk", VInt(userId), HashPassword(password, salt), now);
      forall i | 0 <= i < |users| ensures !Has(users[i].columns, "password") {
        SetPasswordSpec(old(users), "id_user_pk", VInt(userId), password, salt, now, i);
      }
    }

    /** generatePasswordResetToken, given the 32 random bytes. */
    method GeneratePasswordResetToken(email: string, bytes: seq<Byte>, now: int) returns (token: Option<string>)
      requires |bytes| == 32
      modifies this
      ensures var r := IssueReset(old(users), old(resets), email, bytes, now);
        token == r.token && resets == r.resets
      ensures users == old(users) && sessions == old(sessions)
      ensures nextUserId == old(nextUserId) && nextSessionId == old(nextSessionId)
    {
      var r := IssueReset(users, resets, email, bytes, now);
      token := r.token;
      resets := r.resets;
    }

    /** resetPasswordWithToken, with the WHERE marker of its UPDATE. */
    method ResetPasswordWithToken(m: D.WhereMarker, token: string, password: string, salt: string, now: int) returns (ok: bool)
      requires Valid()
      modifies this
      ensures Valid()
      ensures var r := ResetOutcome(m, old(users), old(resets), token, password, salt, now);
        ok == r.ok && users == r.users && resets == r.resets
      ensures sessions == old(sessions) && nextUserId == old(nextUserId) && nextSessionId == old(nextSessionId)
    {
      var r := ResetOutcome(m, users, resets, token, password, salt, now);
      ok := r.ok;
      users := r.users;
      resets := r.resets;
    }

    /** cleanExpiredSessions: the number of rows deleted. */
    method CleanExpiredSessions(now: int) returns (n: nat)
      modifies this
      ensures sessions == ExpireSessions(old(sessions), now) && n == |old(sessions)| - |sessions|
      ensures users == old(users) && resets == old(resets)
      ensures nextUserId == old(nextUserId) && nextSessionId == old(nextSessionId)
    {
      var kept := ExpireSessions(sessions, now);
      n := |sessions| - |kept|;
      sessions := kept;
    }

    /** cleanExpiredResetTokens: the number of rows deleted. */
    method CleanExpiredResetTokens(now: int) returns (n: nat)
      modifies this
      ensures resets == ExpireResets(old(resets), now) && n == |old(resets)| - |resets|
      ensures users == old(users) && sessions == old(sessions)
      ensures nextUserId == old(nextUserId) && nextSessionId == old(nextSessionId)
    {
      var kept := ExpireResets(resets, now);
      n := |resets| - |kept|;
      resets := kept;
    }

    /** updateUserProfile, with the WHERE marker of its UPDATE. */
    method UpdateUserProfile(m: D.WhereMarker, userId: int, data: PhpArray, now: int) returns (ok: bool)
      requires Valid()
      modifies this
      ensures Valid()
      ensures var r := ProfileOutcome(m, old(users), userId, data, now);
        ok == r.ok && users == r.users
      ensures sessions == old(sessions) && resets == old(resets)
      ensures nextUserId == old(nextUserId) && nextSessionId == old(nextSessionId)
    {
      ProfileKeepsValid(m, users, userId, data, now);
      var r := ProfileOutcome(m, users, userId, data, now);
      ok := r.ok;
      users := r.users;
    }
  }
}
