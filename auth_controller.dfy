/**
 * The authentication endpoints (src/Controllers/GenericAuthController.php).
 *
 * Each handler is an early-exit chain of checks: `error()` and `success()`
 * end the request, so a handler is a function from the request, the world
 * outside it and the tables behind the service to the response and the
 * tables afterwards. The service calls are the functions of the
 * AuthService module. The file has no `declare(strict_types=1)`, so a value
 * passed to a `string` or `int` parameter is coerced, and an array (or null
 * for `int`) raises a TypeError that nothing catches.
 *
 * The handlers that update the users table take the WHERE marker of the
 * service's UPDATE (Database.WhereMarker): `Positional` is the source as
 * written, whose `id_user_pk = ?` or `mail = ?` PDO refuses beside the named
 * markers of the SET list, and `Named` the corrected binding.
 */
module AuthController {
  import opened Strings
  import opened Php
  import opened Http
  import opened BaseController
  import S = AuthService
  import D = Database

  /** The tables behind the service, with their next AUTO_INCREMENT values. */
  datatype Store = Store(users: seq<S.User>, sessions: seq<Session>, resets: seq<S.Reset>, nextUserId: int, nextSessionId: int)

  /** `JWT::encode($payload, jwt.secret, jwt.algorithm)`: the library is not modelled. */
  type Encoder = PhpArray -> string

  /**
   * Everything a handler takes from outside the request: the clock, the
   * `jwt` configuration, the JWT library, the e-mail check and strip_tags,
   * the salt of password_hash, the bytes of random_bytes(32), and whether
   * the session insert raises.
   */
  datatype World = World(
    now: int, secret: string, algorithm: string, ttl: int, issuer: Value, audience: Value,
    encode: Encoder, decode: Decoder, isEmail: EmailCheck, strip: TagStripper,
    salt: string, bytes: seq<S.Byte>, sessionInsertFails: bool)

  /** The response a handler ends the request with, and the tables after it. */
  datatype Handled = Handled(response: Response, store: Store)

  /** An uncaught TypeError from an argument that cannot be coerced. */
  const TypeError: Response := Fatal("TypeError")

  /** A value passed to an `int` parameter: integers, booleans and digit strings convert; null and arrays raise. */
  function IntArg(v: Value): Option<int> {
    match v
    case VInt(i) => Some(i)
    case VBool(b) => Some(if b then 1 else 0)
    case VStr(s) => if s != "" && AllDigits(s) then Some(DigitsValue(s)) else None
    case _ => None
  }

  /** The value of a field the request is known to carry (`$data['f']`). */
  function Arg(data: PhpArray, f: string): Value {
    Coalesce(data, f, VNull)
  }

  /** A set string field that is neither "" nor "0" passes validation and reads as that string. */
  lemma Present(data: PhpArray, f: string, s: string)
    requires Get(data, f) == Some(VStr(s)) && s != "" && s != "0"
    ensures !MissingOrEmpty(data, f) && Arg(data, f) == VStr(s)
  {
  }

  /** No error when every required field is present. */
  lemma NoErrors(data: PhpArray, required: seq<string>)
    requires forall i :: 0 <= i < |required| ==> !MissingOrEmpty(data, required[i])
    ensures RequiredErrors(data, required) == []
  {
    RequiredErrorsSpec(data, required);
  }

  /** requireAuth with the configured key, and the store with the sessions it leaves. */
  function Authenticated(header: Option<string>, w: World, db: Store): (Auth, Store) {
    var (a, sessions) := RequireAuth(header, JwtKey(w.secret, w.algorithm), w.decode, db.sessions);
    (a, db.(sessions := sessions))
  }

  // ---------------------------------------------------------------------------
  // login

  const LoginFields: seq<string> := ["identifier", "password"]

  /** The data of a successful login: the token and the user. */
  function LoginData(token: string, user: PhpArray): Value {
    VArr(Put(Put(EmptyMap(), "token", VStr(token)), "user", VArr(user)))
  }

  /** The token login issues for a user. */
  function LoginToken(w: World, user: PhpArray): string {
    w.encode(S.TokenPayload(w.issuer, w.audience, w.ttl, user, w.now))
  }

  /**
   * login: 400 with one error per missing field, then the checks of
   * LoginAs. The users and reset tables never change, and the store only
   * changes with a 200.
   */
  function Login(data: PhpArray, w: World, db: Store): (h: Handled)
    ensures RequiredErrors(data, LoginFields) != [] ==> h == Handled(Error("Validation failed", 400, RequiredErrors(data, LoginFields)), db)
    ensures h.store.users == db.users && h.store.resets == db.resets && h.store.nextUserId == db.nextUserId
    ensures h.store != db ==> h.response.Json? && h.response.status == 200
  {
    var errors := RequiredErrors(data, LoginFields);
    if errors != [] then Handled(Error("Validation failed", 400, errors), db)
    else
      var identifier := TextOf(Arg(data, "identifier"));
      var password := TextOf(Arg(data, "password"));
      if identifier.None? || password.None? then Handled(TypeError, db)
      else LoginAs(identifier.value, password.value, w, db)
  }

  /** login after validation: 401 for failed authentication or an empty record, then OpenSession. */
  function LoginAs(identifier: string, password: string, w: World, db: Store): (h: Handled)
    ensures h.store.users == db.users && h.store.resets == db.resets && h.store.nextUserId == db.nextUserId
    ensures h.store != db ==> h.response.Json? && h.response.status == 200
  {
    match S.Authenticate(db.users, identifier, password)
    case None => Handled(Error("Invalid credentials", 401, []), db)
    case Some(user) => if user.keys == [] then Handled(Error("Invalid credentials", 401, []), db) else OpenSession(user, w, db)
  }

  /** createSession: 500 when the insert fails, else 200 with the token and the user, and one session more. */
  function OpenSession(user: PhpArray, w: World, db: Store): (h: Handled)
    ensures h.store.users == db.users && h.store.resets == db.resets && h.store.nextUserId == db.nextUserId
    ensures h.store != db ==> h.response.Json? && h.response.status == 200 && |h.store.sessions| == |db.sessions| + 1
  {
    var token := LoginToken(w, user);
    match IntArg(S.Field(user, "id_user_pk"))
    case None => Handled(TypeError, db)
    case Some(uid) =>
      if w.sessionInsertFails then Handled(Error("Failed to create session", 500, []), db)
      else
        Handled(Success(LoginData(token, user), "Login successful", 200),
          db.(sessions := S.WithSession(db.sessions, db.nextSessionId, uid, token, w.now, w.ttl),
              nextSessionId := db.nextSessionId + 1))
  }

  /** A request with both fields as strings passes validation and reaches LoginAs. */
  lemma LoginValidated(data: PhpArray, w: World, db: Store, identifier: string, password: string)
    requires Get(data, "identifier") == Some(VStr(identifier)) && identifier != "" && identifier != "0"
    requires Get(data, "password") == Some(VStr(password)) && password != "" && password != "0"
    ensures Login(data, w, db) == LoginAs(identifier, password, w, db)
  {
    Present(data, "identifier", identifier);
    Present(data, "password", password);
    NoErrors(data, LoginFields);
    assert TextOf(Arg(data, "identifier")) == Some(identifier) && TextOf(Arg(data, "password")) == Some(password);
  }

  /** With a text identifier and password that do not authenticate: 401 and nothing changes. */
  lemma LoginRefused(data: PhpArray, w: World, db: Store, identifier: string, password: string)
    requires Get(data, "identifier") == Some(VStr(identifier)) && identifier != "" && identifier != "0"
    requires Get(data, "password") == Some(VStr(password)) && password != "" && password != "0"
    requires S.Authenticate(db.users, identifier, password).None?
    ensures Login(data, w, db) == Handled(Error("Invalid credentials", 401, []), db)
  {
    LoginValidated(data, w, db, identifier, password);
  }

  /**
   * createSession for a row with an integer id: 500 and no change when the
   * insert fails; else 200 with the token and the user, and one new session
   * for that user and token.
   */
  lemma OpenSessionSpec(user: PhpArray, w: World, db: Store)
    requires S.Field(user, "id_user_pk").VInt?
    ensures w.sessionInsertFails ==> OpenSession(user, w, db) == Handled(Error("Failed to create session", 500, []), db)
    ensures !w.sessionInsertFails ==>
      && OpenSession(user, w, db).response == Success(LoginData(LoginToken(w, user), user), "Login successful", 200)
      && OpenSession(user, w, db).store.sessions ==
           S.WithSession(db.sessions, db.nextSessionId, S.Field(user, "id_user_pk").i, LoginToken(w, user), w.now, w.ttl)
  {
  }

  /** With credentials that authenticate a non-empty row, login is createSession for that row. */
  lemma LoginOpens(data: PhpArray, w: World, db: Store, identifier: string, password: string, user: PhpArray)
    requires Get(data, "identifier") == Some(VStr(identifier)) && identifier != "" && identifier != "0"
    requires Get(data, "password") == Some(VStr(password)) && password != "" && password != "0"
    requires S.Authenticate(db.users, identifier, password) == Some(user) && user.keys != []
    ensures Login(data, w, db) == OpenSession(user, w, db)
  {
    LoginValidated(data, w, db, identifier, password);
  }

  /**
   * The token a successful login returns opens the authentication gates:
   * when the JWT library reads it back, under the configured key, as claims
   * of the logged-in user, `Authorization: Bearer <token>` passes
   * requireAuth, and it passes the router too when the configured algorithm
   * is the router's HS256.
   */
  lemma LoginThenAuthorized(data: PhpArray, w: World, db: Store, identifier: string, password: string, user: PhpArray, c: Claims)
    requires Get(data, "identifier") == Some(VStr(identifier)) && identifier != "" && identifier != "0"
    requires Get(data, "password") == Some(VStr(password)) && password != "" && password != "0"
    requires !w.sessionInsertFails
    requires S.Authenticate(db.users, identifier, password) == Some(user) && user.keys != [] && S.Field(user, "id_user_pk").VInt?
    requires var t := LoginToken(w, user);
      && |t| >= 1 && (forall k :: 0 <= k < |t| ==> !IsRegexSpace(t[k]))
      && w.decode(JwtKey(w.secret, w.algorithm), t) == Valid(c) && c.userId == Some(S.Field(user, "id_user_pk").i)
    ensures var sessions := Login(data, w, db).store.sessions;
      && RequireAuth(Some("Bearer " + LoginToken(w, user)), JwtKey(w.secret, w.algorithm), w.decode, sessions).0 == Authorized(c)
      && (w.algorithm == Router.RouterAlgorithm ==>
            Router.RouterGate(Some("Bearer " + LoginToken(w, user)), w.secret, w.decode, sessions).0.Through?)
  {
    var t := LoginToken(w, user);
    var uid := S.Field(user, "id_user_pk").i;
    LoginOpens(data, w, db, identifier, password, user);
    OpenSessionSpec(user, w, db);
    var sessions := Login(data, w, db).store.sessions;
    assert sessions == S.WithSession(db.sessions, db.nextSessionId, uid, t, w.now, w.ttl);
    S.CreatedSessionOpens(db.sessions, db.nextSessionId, uid, t, w.now, w.ttl, w.now);
    BearerRoundTrip(t);
    RequireAuthSpec(Some("Bearer " + t), JwtKey(w.secret, w.algorithm), w.decode, sessions);
    if w.algorithm == Router.RouterAlgorithm {
      RequireAuthMatchesRouter(Some("Bearer " + t), w.secret, w.algorithm, w.decode, sessions);
    }
  }

  // ---------------------------------------------------------------------------
  // register

  const RegisterFields: seq<string> := ["username", "email", "password"]

  /** The array register hands to sanitizeArray: the request's email goes under `mail`. */
  function RawUserData(data: PhpArray): PhpArray {
    Put(Put(Put(Put(EmptyMap(), "username", Arg(data, "username")), "mail", Arg(data, "email")),
      "password", Arg(data, "password")), "mobile_phone", Arg(data, "mobile_phone"))
  }

  /** The user data as the source builds it: every field sanitized, the password too. */
  function UserDataAsWritten(data: PhpArray, strip: TagStripper): PhpArray {
    SanitizedArray(RawUserData(data), strip)
  }

  /** The corrected user data: the other fields sanitized, the password passed as typed. */
  function UserData(data: PhpArray, strip: TagStripper): PhpArray {
    Put(UserDataAsWritten(data, strip), "password", Arg(data, "password"))
  }

  lemma RawUserDataSpec(data: PhpArray)
    ensures Get(RawUserData(data), "username") == Some(Arg(data, "username"))
    ensures Get(RawUserData(data), "mail") == Some(Arg(data, "email"))
    ensures Get(RawUserData(data), "password") == Some(Arg(data, "password"))
  {
    var m: PhpArray := EmptyMap();
    S.PutChain(m, "username", Arg(data, "username"), "mail", Arg(data, "email"), "password", Arg(data, "password"),
      "mobile_phone", Arg(data, "mobile_phone"), "username");
    S.PutChain(m, "username", Arg(data, "username"), "mail", Arg(data, "email"), "password", Arg(data, "password"),
      "mobile_phone", Arg(data, "mobile_phone"), "mail");
    S.PutChain(m, "username", Arg(data, "username"), "mail", Arg(data, "email"), "password", Arg(data, "password"),
      "mobile_phone", Arg(data, "mobile_phone"), "password");
  }

  /**
   * The service sees the request's username and email, sanitized, under
   * `username` and `mail`; the data as written holds the password
   * sanitized, the corrected data holds it as typed.
   */
  lemma UserDataSpec(data: PhpArray, strip: TagStripper, username: string, email: string, password: string)
    requires Get(data, "username") == Some(VStr(username)) && Get(data, "email") == Some(VStr(email))
    requires Get(data, "password") == Some(VStr(password))
    ensures Get(UserDataAsWritten(data, strip), "username") == Some(VStr(SanitizeString(username, strip)))
    ensures Get(UserDataAsWritten(data, strip), "mail") == Some(VStr(SanitizeString(email, strip)))
    ensures Get(UserDataAsWritten(data, strip), "password") == Some(VStr(SanitizeString(password, strip)))
    ensures Get(UserData(data, strip), "username") == Some(VStr(SanitizeString(username, strip)))
    ensures Get(UserData(data, strip), "mail") == Some(VStr(SanitizeString(email, strip)))
    ensures Get(UserData(data, strip), "password") == Some(VStr(password))
  {
    var raw := RawUserData(data);
    RawUserDataSpec(data);
    SanitizeEntries(raw, strip, "username");
    SanitizeEntries(raw, strip, "mail");
    SanitizeEntries(raw, strip, "password");
    var san := UserDataAsWritten(data, strip);
    PutOther(san, "password", Arg(data, "password"), "username");
    PutOther(san, "password", Arg(data, "password"), "mail");
  }

  /** register with the corrected user data. */
  function Register(data: PhpArray, w: World, db: Store): (h: Handled)
    ensures RequiredErrors(data, RegisterFields) != [] ==>
      h == Handled(Error("Validation failed", 400, RequiredErrors(data, RegisterFields)), db)
    ensures h.store.sessions == db.sessions && h.store.resets == db.resets && h.store.nextSessionId == db.nextSessionId
  {
    RegisterUsing(S.AnyIdentifier, data, UserData(data, w.strip), w, db)
  }

  /**
   * register as the source writes it: the password goes through
   * sanitizeArray with the rest, and the service compares usernames with
   * usernames and mails with mails.
   */
  function RegisterAsWritten(data: PhpArray, w: World, db: Store): (h: Handled)
    ensures RequiredErrors(data, RegisterFields) != [] ==>
      h == Handled(Error("Validation failed", 400, RequiredErrors(data, RegisterFields)), db)
    ensures h.store.sessions == db.sessions && h.store.resets == db.resets && h.store.nextSessionId == db.nextSessionId
  {
    RegisterUsing(S.LikeWithLike, data, UserDataAsWritten(data, w.strip), w, db)
  }

  /**
   * register, given the service's duplicate check and the user data it
   * sends: 400 for missing fields, then
   * the checks of RegisterChecked. Only the users table and its counter can
   * change.
   */
  function RegisterUsing(check: S.DuplicateCheck, data: PhpArray, userData: PhpArray, w: World, db: Store): (h: Handled)
    ensures RequiredErrors(data, RegisterFields) != [] ==>
      h == Handled(Error("Validation failed", 400, RequiredErrors(data, RegisterFields)), db)
    ensures h.store.sessions == db.sessions && h.store.resets == db.resets && h.store.nextSessionId == db.nextSessionId
  {
    var errors := RequiredErrors(data, RegisterFields);
    if errors != [] then Handled(Error("Validation failed", 400, errors), db)
    else RegisterChecked(check, TextOf(Arg(data, "email")), TextOf(Arg(data, "password")), userData, w, db)
  }

  /** register after validation: 400 for an invalid email, 400 for a password shorter than 6, then RegisterWith. */
  function RegisterChecked(check: S.DuplicateCheck, email: Option<string>, password: Option<string>, userData: PhpArray, w: World, db: Store): (h: Handled)
    ensures h.store.sessions == db.sessions && h.store.resets == db.resets && h.store.nextSessionId == db.nextSessionId
  {
    if email.None? then Handled(TypeError, db)
    else if !w.isEmail(email.value) then Handled(Error("Invalid email format", 400, []), db)
    else if password.None? then Handled(TypeError, db)
    else if |password.value| < 6 then Handled(Error("Password must be at least 6 characters long", 400, []), db)
    else RegisterWith(check, userData, w, db)
  }

  /**
   * The service call: 400 when it returns null (or 0) with the users as the
   * service left them, else 201 with the new id. Only a 201 changes the
   * store, and then it holds the service's users and the next id.
   */
  function RegisterWith(check: S.DuplicateCheck, userData: PhpArray, w: World, db: Store): (h: Handled)
    ensures h.store.sessions == db.sessions && h.store.resets == db.resets && h.store.nextSessionId == db.nextSessionId
    ensures var r := S.RegisterChecking(check, db.users, db.nextUserId, userData, w.salt, w.now);
      r.id.None? ==> h == Handled(Error("Failed to register user. Username or email may already exist.", 400, []), db)
    ensures var r := S.RegisterChecking(check, db.users, db.nextUserId, userData, w.salt, w.now);
      r.id.Some? && db.nextUserId != 0 ==>
        h.response == Success(VArr(Put(EmptyMap(), "user_id", VInt(db.nextUserId))), "User registered successfully", 201) &&
        h.store.users == r.users && h.store.nextUserId == db.nextUserId + 1
  {
    var r := S.RegisterChecking(check, db.users, db.nextUserId, userData, w.salt, w.now);
    var after := if r.id.Some? then db.(users := r.users, nextUserId := db.nextUserId + 1) else db;
    if r.id.None? || r.id.value == 0 then
      Handled(Error("Failed to register user. Username or email may already exist.", 400, []), after)
    else Handled(Success(VArr(Put(EmptyMap(), "user_id", VInt(r.id.value))), "User registered successfully", 201), after)
  }

  /** A request with the three fields as strings passes validation. */
  lemma RegisterValidated(check: S.DuplicateCheck, data: PhpArray, userData: PhpArray, w: World, db: Store, username: string, email: string, password: string)
    requires Get(data, "username") == Some(VStr(username)) && username != "" && username != "0"
    requires Get(data, "email") == Some(VStr(email)) && email != "" && email != "0"
    requires Get(data, "password") == Some(VStr(password)) && password != "" && password != "0"
    ensures RegisterUsing(check, data, userData, w, db) == RegisterChecked(check, Some(email), Some(password), userData, w, db)
  {
    Present(data, "username", username);
    Present(data, "email", email);
    Present(data, "password", password);
    NoErrors(data, RegisterFields);
    assert TextOf(Arg(data, "email")) == Some(email) && TextOf(Arg(data, "password")) == Some(password);
  }

  /**
   * The checks come in order and the first failure answers: with the fields
   * present, an invalid email gives 400 whatever the password, and a valid
   * email with a short password gives 400; neither touches the tables.
   * Otherwise the service decides.
   */
  lemma RegisterChecksInOrder(data: PhpArray, w: World, db: Store, username: string, email: string, password: string)
    requires Get(data, "username") == Some(VStr(username)) && username != "" && username != "0"
    requires Get(data, "email") == Some(VStr(email)) && email != "" && email != "0"
    requires Get(data, "password") == Some(VStr(password)) && password != "" && password != "0"
    ensures !w.isEmail(email) ==> Register(data, w, db) == Handled(Error("Invalid email format", 400, []), db)
    ensures w.isEmail(email) && |password| < 6 ==>
      Register(data, w, db) == Handled(Error("Password must be at least 6 characters long", 400, []), db)
    ensures w.isEmail(email) && |password| >= 6 ==> Register(data, w, db) == RegisterWith(S.AnyIdentifier, UserData(data, w.strip), w, db)
  {
    RegisterValidated(S.AnyIdentifier, data, UserData(data, w.strip), w, db, username, email, password);
  }

  /** A 201 from register comes from the service: the checks passed and the service returned the next id. */
  lemma RegisterCreated(check: S.DuplicateCheck, data: PhpArray, userData: PhpArray, w: World, db: Store, username: string, email: string, password: string)
    requires Get(data, "username") == Some(VStr(username)) && username != "" && username != "0"
    requires Get(data, "email") == Some(VStr(email)) && email != "" && email != "0"
    requires Get(data, "password") == Some(VStr(password)) && password != "" && password != "0"
    requires RegisterUsing(check, data, userData, w, db).response.Json? && RegisterUsing(check, data, userData, w, db).response.status == 201
    ensures var r := S.RegisterChecking(check, db.users, db.nextUserId, userData, w.salt, w.now);
      && w.isEmail(email) && |password| >= 6
      && r.id.Some? && RegisterUsing(check, data, userData, w, db).store.users == r.users
  {
    RegisterValidated(check, data, userData, w, db, username, email, password);
    CheckedCreated(check, email, password, userData, w, db);
    WithCreated(check, userData, w, db);
  }

  /** A 201 after validation means both checks passed and the service call answered. */
  lemma CheckedCreated(check: S.DuplicateCheck, email: string, password: string, userData: PhpArray, w: World, db: Store)
    requires RegisterChecked(check, Some(email), Some(password), userData, w, db).response.Json?
    requires RegisterChecked(check, Some(email), Some(password), userData, w, db).response.status == 201
    ensures w.isEmail(email) && |password| >= 6
    ensures RegisterChecked(check, Some(email), Some(password), userData, w, db) == RegisterWith(check, userData, w, db)
  {
  }

  /** A 201 from the service call means it returned an id and the store holds its users. */
  lemma WithCreated(check: S.DuplicateCheck, userData: PhpArray, w: World, db: Store)
    requires RegisterWith(check, userData, w, db).response.Json? && RegisterWith(check, userData, w, db).response.status == 201
    ensures var r := S.RegisterChecking(check, db.users, db.nextUserId, userData, w.salt, w.now);
      r.id.Some? && RegisterWith(check, userData, w, db).store.users == r.users
  {
  }

  /**
   * With the corrected user data, signing up and then logging in with the
   * same password works: after a 201, the username (when sanitizing leaves
   * it unchanged) authenticates with the password as typed, and with no
   * other, and login returns the new row.
   */
  lemma RegisterThenLogin(data: PhpArray, w: World, db: Store, username: string, email: string, password: string)
    requires Get(data, "username") == Some(VStr(username)) && username != "" && username != "0"
    requires Get(data, "email") == Some(VStr(email)) && email != "" && email != "0"
    requires Get(data, "password") == Some(VStr(password)) && password != "" && password != "0"
    requires SanitizeString(username, w.strip) == username
    requires Register(data, w, db).response.Json? && Register(data, w, db).response.status == 201
    ensures var users := Register(data, w, db).store.users;
      && |users| == |db.users| + 1
      && S.Authenticate(users, username, password) == Some(users[|db.users|].columns)
      && forall p :: S.Authenticate(users, username, p).Some? <==> p == password
  {
    var ud := UserData(data, w.strip);
    RegisterCreated(S.AnyIdentifier, data, ud, w, db, username, email, password);
    UserDataSpec(data, w.strip, username, email, password);
    S.RegisterThenLogin(db.users, db.nextUserId, ud, w.salt, w.now, username, SanitizeString(email, w.strip), password);
  }

  /**
   * As written, register sanitizes the password before hashing it, while
   * login verifies the password as typed. A password holding one of
   * `& " ' < >` (that strip_tags and trim leave alone) is stored as the
   * hash of its escaped form, so signing up and then logging in with the
   * same password is refused. (The username is taken to be no existing
   * user's identifier, so that the duplicate check as written plays no part.)
   */
  lemma SanitizedPasswordLockout(data: PhpArray, login: PhpArray, w: World, db: Store, username: string, email: string, password: string)
    requires Get(data, "username") == Some(VStr(username)) && username != "" && username != "0"
    requires Get(data, "email") == Some(VStr(email)) && email != "" && email != "0"
    requires Get(data, "password") == Some(VStr(password)) && password != "" && password != "0"
    requires Get(login, "identifier") == Some(VStr(username)) && Get(login, "password") == Some(VStr(password))
    requires SanitizeString(username, w.strip) == username
    requires w.strip(Trim(password)) == password && exists i :: 0 <= i < |password| && IsSpecial(password[i])
    requires forall j :: 0 <= j < |db.users| ==> !S.MatchesAny(db.users[j], S.LoginColumns, VStr(username))
    requires RegisterAsWritten(data, w, db).response.Json? && RegisterAsWritten(data, w, db).response.status == 201
    ensures Login(login, w, RegisterAsWritten(data, w, db).store) ==
      Handled(Error("Invalid credentials", 401, []), RegisterAsWritten(data, w, db).store)
  {
    var ud := UserDataAsWritten(data, w.strip);
    var stored := SanitizeString(password, w.strip);
    RegisterCreated(S.LikeWithLike, data, ud, w, db, username, email, password);
    UserDataSpec(data, w.strip, username, email, password);
    EscapeLonger(password);
    assert stored != password;
    S.InsertThenLogin(db.users, S.TakenAsWritten(db.users, ud), ud, db.nextUserId, w.salt, w.now, username, stored);
    LoginRefused(login, w, RegisterAsWritten(data, w, db).store, username, password);
  }

  // ---------------------------------------------------------------------------
  // Handlers behind requireAuth

  /**
   * logout: the token of the header (the one requireAuth has just accepted)
   * is destroyed and the answer is 200; a falsy token gives 500.
   */
  function Logout(header: Option<string>, w: World, db: Store): (h: Handled)
    ensures Authenticated(header, w, db).0.Refused? ==>
      h == Handled(Authenticated(header, w, db).0.response, Authenticated(header, w, db).1)
  {
    var (a, db1) := Authenticated(header, w, db);
    if a.Refused? then Handled(a.response, db1)
    else
      var token := if BearerToken(header).Some? then BearerToken(header).value else "";
      if IsEmpty(VStr(token)) then Handled(Error("Failed to logout", 500, []), db1)
      else Handled(Success(VNull, "Logout successful", 200), db1.(sessions := DeleteByToken(db1.sessions, token)))
  }

  /** After a successful logout the same header no longer passes requireAuth or the router. */
  lemma LogoutCloses(header: Option<string>, w: World, db: Store)
    requires Logout(header, w, db).response == Success(VNull, "Logout successful", 200)
    ensures RequireAuth(header, JwtKey(w.secret, w.algorithm), w.decode, Logout(header, w, db).store.sessions).0.Refused?
    ensures !Router.RouterGate(header, w.secret, w.decode, Logout(header, w, db).store.sessions).0.Through?
  {
    var key := JwtKey(w.secret, w.algorithm);
    RequireAuthSpec(header, key, w.decode, db.sessions);
    var t := BearerToken(header).value;
    var after := Logout(header, w, db).store.sessions;
    assert after == DeleteByToken(db.sessions, t);
    S.DestroyCloses(db.sessions, t, w.decode(key, t).claims.userId, w.now);
    RequireAuthSpec(header, key, w.decode, after);
    var d := w.decode(JwtKey(w.secret, Router.RouterAlgorithm), t);
    if d.Valid? {
      S.DestroyCloses(db.sessions, t, d.claims.userId, w.now);
    }
    Router.RouterGateSpec(header, w.secret, w.decode, after);
  }

  /** me: the public columns of the token's user, 404 when the row is gone. */
  function Me(header: Option<string>, w: World, db: Store): (h: Handled)
    ensures h.store == Authenticated(header, w, db).1 && h.store.users == db.users && h.store.resets == db.resets
  {
    var (a, db1) := Authenticated(header, w, db);
    if a.Refused? then Handled(a.response, db1)
    else if a.claims.userId.None? then Handled(TypeError, db1)
    else match S.GetUserById(db1.users, a.claims.userId.value)
      case None => Handled(Error("User not found", 404, []), db1)
      case Some(user) => Handled(Success(VArr(user), "Success", 200), db1)
  }

  /**
   * For an authorized user: 404 exactly when no row has the id; otherwise
   * 200 with the public columns of that row, which never include the
   * password.
   */
  lemma MeSpec(header: Option<string>, w: World, db: Store, id: int)
    requires Authenticated(header, w, db).0.Authorized? && Authenticated(header, w, db).0.claims.userId == Some(id)
    ensures (forall i :: 0 <= i < |db.users| ==> !S.MatchesAny(db.users[i], ["id_user_pk"], VInt(id))) <==>
      Me(header, w, db).response == Error("User not found", 404, [])
    ensures Me(header, w, db).response.Json? && Me(header, w, db).response.status == 200 ==>
      && S.GetUserById(db.users, id).Some?
      && Me(header, w, db).response == Success(VArr(S.GetUserById(db.users, id).value), "Success", 200)
      && S.GetUserById(db.users, id).value.keys == S.PublicColumns
      && !Has(S.GetUserById(db.users, id).value, "password")
  {
    match S.GetUserById(db.users, id)
    case None =>
    case Some(u) =>
      assert Success(VArr(u), "Success", 200).status == 200;
  }

  // ---------------------------------------------------------------------------
  // updateProfile

  /** The fields updateProfile copies from the request, in order. */
  const AllowedFields: seq<string> := ["username", "mail", "mobile_phone"]

  /** One turn of the foreach: a set field is copied, sanitized; None when it holds an array. */
  function CopyField(acc: PhpArray, data: PhpArray, strip: TagStripper, f: string): Option<PhpArray> {
    if !IsSet(data, f) then Some(acc)
    else match TextOf(data.vals[f])
      case None => None
      case Some(s) => Some(Put(acc, f, VStr(SanitizeString(s, strip))))
  }

  /** The foreach over a list of fields, as a fold over the list. */
  function Copied(data: PhpArray, strip: TagStripper, fields: seq<string>): Option<PhpArray>
    decreases |fields|
  {
    if fields == [] then Some(EmptyMap())
    else match Copied(data, strip, fields[..|fields| - 1])
      case None => None
      case Some(acc) => CopyField(acc, data, strip, fields[|fields| - 1])
  }

  /** The text sanitizeString makes of a set scalar field. */
  function SanitizedField(data: PhpArray, strip: TagStripper, f: string): Value
    requires IsSet(data, f) && !data.vals[f].VArr?
  {
    VStr(SanitizeString(TextOf(data.vals[f]).value, strip))
  }

  /**
   * The copy fails exactly when a listed field holds an array; otherwise it
   * holds exactly the listed fields that are set, each sanitized.
   */
  lemma {:induction false} CopiedSpec(data: PhpArray, strip: TagStripper, fields: seq<string>)
    ensures Copied(data, strip, fields).None? <==>
      exists i :: 0 <= i < |fields| && IsSet(data, fields[i]) && data.vals[fields[i]].VArr?
    ensures Copied(data, strip, fields).Some? ==>
      var u := Copied(data, strip, fields).value;
      && Wf(u)
      && (forall k :: Has(u, k) <==> k in fields && IsSet(data, k))
      && (forall k :: Has(u, k) ==> IsSet(data, k) && !data.vals[k].VArr? && u.vals[k] == SanitizedField(data, strip, k))
    decreases |fields|
  {
    if fields != [] {
      var pre := fields[..|fields| - 1];
      var f := fields[|fields| - 1];
      CopiedSpec(data, strip, pre);
      assert forall i :: 0 <= i < |pre| ==> pre[i] == fields[i];
      assert forall k :: k in fields <==> k in pre || k == f;
      match Copied(data, strip, pre)
      case None =>
        var i :| 0 <= i < |pre| && IsSet(data, pre[i]) && data.vals[pre[i]].VArr?;
        assert fields[i] == pre[i];
      case Some(acc) =>
        assert fields[|fields| - 1] == f;
        CopyFieldSpec(acc, data, strip, pre, f);
    }
  }

  /** One turn of the foreach keeps the copy's description, for the fields so far and the next one. */
  lemma CopyFieldSpec(acc: PhpArray, data: PhpArray, strip: TagStripper, pre: seq<string>, f: string)
    requires Wf(acc)
    requires forall k :: Has(acc, k) <==> k in pre && IsSet(data, k)
    requires forall k :: Has(acc, k) ==> IsSet(data, k) && !data.vals[k].VArr? && acc.vals[k] == SanitizedField(data, strip, k)
    ensures CopyField(acc, data, strip, f).None? <==> IsSet(data, f) && data.vals[f].VArr?
    ensures CopyField(acc, data, strip, f).Some? ==>
      var u := CopyField(acc, data, strip, f).value;
      && Wf(u)
      && (forall k :: Has(u, k) <==> (k in pre || k == f) && IsSet(data, k))
      && (forall k :: Has(u, k) ==> IsSet(data, k) && !data.vals[k].VArr? && u.vals[k] == SanitizedField(data, strip, k))
  {
    if !IsSet(data, f) {
      assert CopyField(acc, data, strip, f) == Some(acc);
      assert forall k :: (k in pre || k == f) && IsSet(data, k) <==> k in pre && IsSet(data, k);
    } else if !data.vals[f].VArr? {
      CopySetField(acc, data, strip, pre, f);
    }
  }

  /** The turn of the foreach that copies a set scalar field. */
  lemma CopySetField(acc: PhpArray, data: PhpArray, strip: TagStripper, pre: seq<string>, f: string)
    requires Wf(acc) && IsSet(data, f) && !data.vals[f].VArr?
    requires forall k :: Has(acc, k) <==> k in pre && IsSet(data, k)
    requires forall k :: Has(acc, k) ==> IsSet(data, k) && !data.vals[k].VArr? && acc.vals[k] == SanitizedField(data, strip, k)
    ensures CopyField(acc, data, strip, f) == Some(Put(acc, f, SanitizedField(data, strip, f)))
    ensures var u := Put(acc, f, SanitizedField(data, strip, f));
      && Wf(u)
      && (forall k :: Has(u, k) <==> (k in pre || k == f) && IsSet(data, k))
      && (forall k :: Has(u, k) ==> IsSet(data, k) && !data.vals[k].VArr? && u.vals[k] == SanitizedField(data, strip, k))
  {
    PutFieldKeys(acc, data, strip, pre, f);
    PutFieldValues(acc, data, strip, f);
  }

  /** Copying a set scalar field adds it to the keys. */
  lemma PutFieldKeys(acc: PhpArray, data: PhpArray, strip: TagStripper, pre: seq<string>, f: string)
    requires Wf(acc) && IsSet(data, f) && !data.vals[f].VArr?
    requires forall k :: Has(acc, k) <==> k in pre && IsSet(data, k)
    ensures var u := Put(acc, f, SanitizedField(data, strip, f));
      Wf(u) && forall k :: Has(u, k) <==> (k in pre || k == f) && IsSet(data, k)
  {
    var u := Put(acc, f, SanitizedField(data, strip, f));
    PutOrder(acc, f, SanitizedField(data, strip, f));
    forall k ensures Has(u, k) <==> (k in pre || k == f) && IsSet(data, k) {
      assert Has(u, k) <==> k == f || Has(acc, k);
    }
  }

  /** Copying a set scalar field keeps every copied value the sanitized request value. */
  lemma PutFieldValues(acc: PhpArray, data: PhpArray, strip: TagStripper, f: string)
    requires IsSet(data, f) && !data.vals[f].VArr?
    requires forall k :: Has(acc, k) ==> IsSet(data, k) && !data.vals[k].VArr? && acc.vals[k] == SanitizedField(data, strip, k)
    ensures var u := Put(acc, f, SanitizedField(data, strip, f));
      forall k :: Has(u, k) ==> IsSet(data, k) && !data.vals[k].VArr? && u.vals[k] == SanitizedField(data, strip, k)
  {
    var u := Put(acc, f, SanitizedField(data, strip, f));
    forall k | Has(u, k) ensures IsSet(data, k) && !data.vals[k].VArr? && u.vals[k] == SanitizedField(data, strip, k) {
      if k != f {
        assert Has(acc, k) && u.vals[k] == acc.vals[k];
      }
    }
  }

  /** `$updateData`: the copied fields, then the request's email, sanitized, as `mail` (the unset is a no-op). */
  function UpdateData(data: PhpArray, strip: TagStripper): Option<PhpArray> {
    match Copied(data, strip, AllowedFields)
    case None => None
    case Some(u) =>
      if !IsSet(data, "email") then Some(u)
      else if data.vals["email"].VArr? then None
      else Some(Put(u, "mail", SanitizedField(data, strip, "email")))
  }

  /**
   * The update data: None exactly when one of the copied fields or the
   * email holds an array; otherwise `username` and `mobile_phone` are there
   * exactly when set, `mail` exactly when `mail` or `email` is set, the
   * email winning; every value is sanitized and no other key is written.
   */
  lemma UpdateDataSpec(data: PhpArray, strip: TagStripper)
    ensures UpdateData(data, strip).None? <==>
      (exists i :: 0 <= i < |AllowedFields| && IsSet(data, AllowedFields[i]) && data.vals[AllowedFields[i]].VArr?) ||
      (IsSet(data, "email") && data.vals["email"].VArr?)
    ensures UpdateData(data, strip).Some? ==>
      var u := UpdateData(data, strip).value;
      && Wf(u)
      && (forall k :: Has(u, k) ==> k in AllowedFields)
      && (Has(u, "username") <==> IsSet(data, "username"))
      && (Has(u, "mobile_phone") <==> IsSet(data, "mobile_phone"))
      && (Has(u, "mail") <==> IsSet(data, "mail") || IsSet(data, "email"))
      && (IsSet(data, "email") ==> u.vals["mail"] == SanitizedField(data, strip, "email"))
      && (!IsSet(data, "email") && IsSet(data, "mail") ==> u.vals["mail"] == SanitizedField(data, strip, "mail"))
      && (IsSet(data, "username") ==> u.vals["username"] == SanitizedField(data, strip, "username"))
      && (IsSet(data, "mobile_phone") ==> u.vals["mobile_phone"] == SanitizedField(data, strip, "mobile_phone"))
  {
    CopiedSpec(data, strip, AllowedFields);
    assert "mail" in AllowedFields && "username" in AllowedFields && "mobile_phone" in AllowedFields;
    match Copied(data, strip, AllowedFields)
    case None =>
    case Some(c) =>
      if IsSet(data, "email") && !data.vals["email"].VArr? {
        PutOrder(c, "mail", SanitizedField(data, strip, "email"));
      }
  }

  /** The foreach of updateProfile, then the email override. */
  method BuildUpdateData(data: PhpArray, strip: TagStripper) returns (r: Option<PhpArray>)
    ensures r == UpdateData(data, strip)
  {
    var acc: PhpArray := EmptyMap();
    var i := 0;
    while i < |AllowedFields|
      invariant 0 <= i <= |AllowedFields|
      invariant Copied(data, strip, AllowedFields[..i]) == Some(acc)
    {
      var field := AllowedFields[i];
      assert AllowedFields[..i + 1][..i] == AllowedFields[..i];
      if IsSet(data, field) {
        var s := TextOf(data.vals[field]);
        if s.None? {
          CopiedSpec(data, strip, AllowedFields);
          return None;
        }
        acc := Put(acc, field, VStr(SanitizeString(s.value, strip)));
      }
      i := i + 1;
    }
    assert AllowedFields[..i] == AllowedFields;
    r := Some(acc);
    if IsSet(data, "email") {
      var e := TextOf(data.vals["email"]);
      if e.None? {
        return None;
      }
      r := Some(Put(acc, "mail", VStr(SanitizeString(e.value, strip))));
    }
  }

  /**
   * updateProfile: after requireAuth, 400 for an invalid email, 400 when no
   * field is left to write, then the service: 200 when it reports a row
   * updated, 500 otherwise. Only the users table changes, and it keeps its
   * length.
   */
  function UpdateProfile(m: D.WhereMarker, header: Option<string>, data: PhpArray, w: World, db: Store): (h: Handled)
    ensures Authenticated(header, w, db).0.Refused? ==>
      h == Handled(Authenticated(header, w, db).0.response, Authenticated(header, w, db).1)
    ensures h.store.sessions == Authenticated(header, w, db).1.sessions && h.store.resets == db.resets
    ensures h.store.nextUserId == db.nextUserId && h.store.nextSessionId == db.nextSessionId
    ensures |h.store.users| == |db.users|
  {
    var (a, db1) := Authenticated(header, w, db);
    if a.Refused? then Handled(a.response, db1) else ProfileFor(m, a.claims.userId, data, w, db1)
  }

  /** updateProfile for the token's user: the email check, then the update data. */
  function ProfileFor(m: D.WhereMarker, userId: Option<int>, data: PhpArray, w: World, db: Store): (h: Handled)
    ensures h.store.sessions == db.sessions && h.store.resets == db.resets
    ensures h.store.nextUserId == db.nextUserId && h.store.nextSessionId == db.nextSessionId
    ensures |h.store.users| == |db.users|
  {
    if IsSet(data, "email") && data.vals["email"].VArr? then Handled(TypeError, db)
    else if IsSet(data, "email") && !w.isEmail(TextOf(data.vals["email"]).value) then
      Handled(Error("Invalid email format", 400, []), db)
    else match UpdateData(data, w.strip)
      case None => Handled(TypeError, db)
      case Some(changes) => ProfileWrite(m, userId, changes, w, db)
  }

  /**
   * The write: 400 when there is nothing to write, else the service's
   * users, with 200 when it reports a row updated and 500 otherwise.
   */
  function ProfileWrite(m: D.WhereMarker, userId: Option<int>, changes: PhpArray, w: World, db: Store): (h: Handled)
    ensures h.store.sessions == db.sessions && h.store.resets == db.resets
    ensures h.store.nextUserId == db.nextUserId && h.store.nextSessionId == db.nextSessionId
    ensures |h.store.users| == |db.users|
    ensures changes.keys == [] ==> h == Handled(Error("No valid fields to update", 400, []), db)
    ensures changes.keys != [] && userId.Some? ==>
      var r := S.ProfileOutcome(m, db.users, userId.value, changes, w.now);
      && h.store.users == r.users
      && (h.response == Success(VNull, "Profile updated successfully", 200) <==> r.ok)
  {
    if changes.keys == [] then Handled(Error("No valid fields to update", 400, []), db)
    else if userId.None? then Handled(TypeError, db)
    else
      var r := S.ProfileOutcome(m, db.users, userId.value, changes, w.now);
      if r.ok then Handled(Success(VNull, "Profile updated successfully", 200), db.(users := r.users))
      else Handled(Error("Failed to update profile", 500, []), db.(users := r.users))
  }

  /**
   * Whatever the request holds, updateProfile keeps every row's password,
   * id and creation time, and rows of other users as they were.
   */
  lemma ProfileEndpointProtects(m: D.WhereMarker, header: Option<string>, data: PhpArray, w: World, db: Store, i: nat)
    requires i < |db.users|
    ensures var users := UpdateProfile(m, header, data, w, db).store.users;
      && users[i].password == db.users[i].password
      && Get(users[i].columns, "id_user_pk") == Get(db.users[i].columns, "id_user_pk")
      && Get(users[i].columns, "created_at") == Get(db.users[i].columns, "created_at")
      && (Authenticated(header, w, db).0.Authorized? && Authenticated(header, w, db).0.claims.userId.Some? &&
          !S.Column(db.users[i], "id_user_pk", VInt(Authenticated(header, w, db).0.claims.userId.value)) ==>
            users[i] == db.users[i])
      && (!Has(db.users[i].columns, "password") ==> !Has(users[i].columns, "password"))
  {
    var (a, db1) := Authenticated(header, w, db);
    assert db1.users == db.users;
    if a.Authorized? {
      ProfileForProtects(m, a.claims.userId, data, w, db1, i);
    }
  }

  /** The same for ProfileFor, whoever the user is. */
  lemma ProfileForProtects(m: D.WhereMarker, userId: Option<int>, data: PhpArray, w: World, db: Store, i: nat)
    requires i < |db.users|
    ensures var users := ProfileFor(m, userId, data, w, db).store.users;
      && users[i].password == db.users[i].password
      && Get(users[i].columns, "id_user_pk") == Get(db.users[i].columns, "id_user_pk")
      && Get(users[i].columns, "created_at") == Get(db.users[i].columns, "created_at")
      && (userId.Some? && !S.Column(db.users[i], "id_user_pk", VInt(userId.value)) ==> users[i] == db.users[i])
      && (!Has(db.users[i].columns, "password") ==> !Has(users[i].columns, "password"))
  {
    if userId.Some? {
      match UpdateData(data, w.strip)
      case None =>
      case Some(changes) =>
        S.ProfileProtects(m, db.users, userId.value, changes, w.now, i, "mail");
    }
  }

  /**
   * A 200 from updateProfile with an email writes that email, sanitized,
   * into the mail column of the user's rows.
   */
  lemma ProfileEmailWritten(m: D.WhereMarker, header: Option<string>, data: PhpArray, w: World, db: Store, id: int, i: nat)
    requires i < |db.users|
    requires Authenticated(header, w, db).0.Authorized? && Authenticated(header, w, db).0.claims.userId == Some(id)
    requires S.Column(db.users[i], "id_user_pk", VInt(id))
    requires IsSet(data, "email") && !data.vals["email"].VArr?
    requires UpdateProfile(m, header, data, w, db).response == Success(VNull, "Profile updated successfully", 200)
    ensures Get(UpdateProfile(m, header, data, w, db).store.users[i].columns, "mail") == Some(SanitizedField(data, w.strip, "email"))
  {
    var db1 := Authenticated(header, w, db).1;
    UpdateDataSpec(data, w.strip);
    var changes := UpdateData(data, w.strip).value;
    assert UpdateProfile(m, header, data, w, db) == ProfileFor(m, Some(id), data, w, db1);
    assert ProfileFor(m, Some(id), data, w, db1) == ProfileWrite(m, Some(id), changes, w, db1);
    UpdateColumns(changes);
    if m.Positional? {
      ProfileWriteAsWritten(id, changes, w, db1);
      EnvelopesDistinct(VNull, "Profile updated successfully", "Failed to update profile", []);
    }
    ProfileWriteMail(id, changes, w, db1, i);
  }

  /** The fields updateProfile copies are plain column names, and so is every key of its update data. */
  lemma UpdateColumns(changes: PhpArray)
    requires Wf(changes) && forall k :: Has(changes, k) ==> k in AllowedFields
    ensures S.ColumnKeys(S.ProfileChanges(changes))
  {
    assert D.IsColumnName("username") && D.IsColumnName("mail") && D.IsColumnName("mobile_phone");
    forall k | k in S.ProfileChanges(changes).keys ensures D.IsColumnName(k) {
      assert k in changes.keys && Has(changes, k);
    }
  }

  /**
   * A corrected write for the user whose data holds a mail puts that mail
   * into the user's rows.
   */
  lemma ProfileWriteMail(id: int, changes: PhpArray, w: World, db: Store, i: nat)
    requires i < |db.users|
    requires S.Column(db.users[i], "id_user_pk", VInt(id))
    requires Wf(changes) && Has(changes, "mail") && S.ColumnKeys(S.ProfileChanges(changes))
    ensures Get(ProfileWrite(D.Named, Some(id), changes, w, db).store.users[i].columns, "mail") == Some(changes.vals["mail"])
  {
    assert changes.keys != [];
    var ks := S.ProfileChanges(changes).keys;
    assert "mail" in ks;
    S.ProfileUpdateNames(changes, w.now);
    S.ProfileProtects(D.Named, db.users, id, changes, w.now, i, "mail");
  }

  /**
   * As written, a write with something to write is refused by PDO: 500
   * "Failed to update profile" and the table as it was.
   */
  lemma ProfileWriteAsWritten(id: int, changes: PhpArray, w: World, db: Store)
    requires changes.keys != [] && S.ColumnKeys(S.ProfileChanges(changes))
    ensures ProfileWrite(D.Positional, Some(id), changes, w, db) == Handled(Error("Failed to update profile", 500, []), db)
  {
    S.ProfileBinding(db.users, id, changes, w.now);
    assert db.(users := db.users) == db;
  }

  /**
   * As written, updateProfile never changes the users table, and once the
   * token is accepted it never answers 200.
   */
  lemma ProfileAsWritten(header: Option<string>, data: PhpArray, w: World, db: Store)
    ensures UpdateProfile(D.Positional, header, data, w, db).store.users == db.users
    ensures Authenticated(header, w, db).0.Authorized? ==>
      UpdateProfile(D.Positional, header, data, w, db).response != Success(VNull, "Profile updated successfully", 200)
  {
    var (a, db1) := Authenticated(header, w, db);
    assert db1.users == db.users;
    if a.Authorized? {
      ProfileForAsWritten(a.claims.userId, data, w, db1);
    }
  }

  /** As written, updateProfile for the token's user never answers 200 and never changes the store. */
  lemma ProfileForAsWritten(userId: Option<int>, data: PhpArray, w: World, db: Store)
    ensures ProfileFor(D.Positional, userId, data, w, db).store == db
    ensures ProfileFor(D.Positional, userId, data, w, db).response != Success(VNull, "Profile updated successfully", 200)
  {
    if userId.Some? {
      UpdateDataSpec(data, w.strip);
      match UpdateData(data, w.strip)
      case None =>
      case Some(changes) =>
        UpdateColumns(changes);
        if changes.keys != [] {
          ProfileWriteAsWritten(userId.value, changes, w, db);
        }
    }
  }

  // ---------------------------------------------------------------------------
  // requestPasswordReset

  const ResetRequestFields: seq<string> := ["email"]

  /**
   * requestPasswordReset: 400 for a missing or invalid email; otherwise a
   * token is issued when a user has the mail, and the answer is the same
   * 200 either way. Only the reset table changes.
   */
  function RequestPasswordReset(data: PhpArray, w: World, db: Store): (h: Handled)
    ensures RequiredErrors(data, ResetRequestFields) != [] ==>
      h == Handled(Error("Validation failed", 400, RequiredErrors(data, ResetRequestFields)), db)
    ensures h.store.users == db.users && h.store.sessions == db.sessions
    ensures h.store.nextUserId == db.nextUserId && h.store.nextSessionId == db.nextSessionId
  {
    var errors := RequiredErrors(data, ResetRequestFields);
    if errors != [] then Handled(Error("Validation failed", 400, errors), db)
    else match TextOf(Arg(data, "email"))
      case None => Handled(TypeError, db)
      case Some(email) => if !w.isEmail(email) then Handled(Error("Invalid email format", 400, []), db) else IssueFor(email, w, db)
  }

  /** generatePasswordResetToken, then the fixed answer. */
  function IssueFor(email: string, w: World, db: Store): Handled {
    Handled(Success(VNull, "If the email exists, a reset link has been sent", 200),
      db.(resets := S.IssueReset(db.users, db.resets, email, w.bytes, w.now).resets))
  }

  /** A request with a valid email string reaches the service. */
  lemma ResetRequestValidated(data: PhpArray, w: World, db: Store, email: string)
    requires Get(data, "email") == Some(VStr(email)) && email != "" && email != "0" && w.isEmail(email)
    ensures RequestPasswordReset(data, w, db) == IssueFor(email, w, db)
  {
    Present(data, "email", email);
    NoErrors(data, ResetRequestFields);
  }

  /**
   * The answer does not tell whether a user has the email: two stores that
   * differ in any way get the same response. A reset row is added exactly
   * when a user has the mail.
   */
  lemma ResetRequestHidesAccounts(data: PhpArray, w: World, db: Store, db': Store, email: string)
    requires Get(data, "email") == Some(VStr(email)) && email != "" && email != "0" && w.isEmail(email)
    ensures RequestPasswordReset(data, w, db).response == RequestPasswordReset(data, w, db').response
    ensures RequestPasswordReset(data, w, db).response == Success(VNull, "If the email exists, a reset link has been sent", 200)
    ensures var r := S.IssueReset(db.users, db.resets, email, w.bytes, w.now);
      && RequestPasswordReset(data, w, db).store.resets == r.resets
      && (r.token.Some? <==> exists i :: 0 <= i < |db.users| && S.Column(db.users[i], "mail", VStr(email)))
  {
    ResetRequestValidated(data, w, db, email);
    ResetRequestValidated(data, w, db', email);
    IssuedIffMail(db.users, db.resets, email, w.bytes, w.now);
  }

  /** A reset token is issued exactly when some user has the mail. */
  lemma IssuedIffMail(users: seq<S.User>, resets: seq<S.Reset>, email: string, bytes: seq<S.Byte>, now: int)
    ensures S.IssueReset(users, resets, email, bytes, now).token.Some? <==>
      exists i :: 0 <= i < |users| && S.Column(users[i], "mail", VStr(email))
  {
    if exists i :: 0 <= i < |users| && S.Column(users[i], "mail", VStr(email)) {
      var i :| 0 <= i < |users| && S.Column(users[i], "mail", VStr(email));
      assert S.Column(users[i], ["mail"][0], VStr(email));
    }
  }

  // ---------------------------------------------------------------------------
  // resetPassword

  const ResetFields: seq<string> := ["token", "password"]

  /**
   * resetPassword: 400 for missing fields or a password shorter than 6;
   * then the service: 200 when it reset a password, 400 for an unknown,
   * used or expired token. Sessions never change, and the store only
   * changes with the 200.
   */
  function ResetPassword(m: D.WhereMarker, data: PhpArray, w: World, db: Store): (h: Handled)
    ensures RequiredErrors(data, ResetFields) != [] ==>
      h == Handled(Error("Validation failed", 400, RequiredErrors(data, ResetFields)), db)
    ensures h.store.sessions == db.sessions && h.store.nextUserId == db.nextUserId && h.store.nextSessionId == db.nextSessionId
    ensures h.store != db ==> h.response == Success(VNull, "Password reset successful", 200)
    ensures |h.store.users| == |db.users|
  {
    var errors := RequiredErrors(data, ResetFields);
    if errors != [] then Handled(Error("Validation failed", 400, errors), db)
    else match TextOf(Arg(data, "password"))
      case None => Handled(TypeError, db)
      case Some(password) =>
        if |password| < 6 then Handled(Error("Password must be at least 6 characters long", 400, []), db)
        else match TextOf(Arg(data, "token"))
          case None => Handled(TypeError, db)
          case Some(token) => ResetWith(m, token, password, w, db)
  }

  /** The service call of resetPassword. */
  function ResetWith(m: D.WhereMarker, token: string, password: string, w: World, db: Store): (h: Handled)
    ensures h.store.sessions == db.sessions && h.store.nextUserId == db.nextUserId && h.store.nextSessionId == db.nextSessionId
    ensures h.store != db ==> h.response == Success(VNull, "Password reset successful", 200)
    ensures |h.store.users| == |db.users|
  {
    var r := S.ResetOutcome(m, db.users, db.resets, token, password, w.salt, w.now);
    if r.ok then Handled(Success(VNull, "Password reset successful", 200), db.(users := r.users, resets := r.resets))
    else Handled(Error("Invalid or expired reset token", 400, []), db)
  }

  /** A request with both fields as strings and a long enough password reaches the service. */
  lemma ResetValidated(m: D.WhereMarker, data: PhpArray, w: World, db: Store, token: string, password: string)
    requires Get(data, "token") == Some(VStr(token)) && token != "" && token != "0"
    requires Get(data, "password") == Some(VStr(password)) && password != "" && password != "0" && |password| >= 6
    ensures ResetPassword(m, data, w, db) == ResetWith(m, token, password, w, db)
  {
    Present(data, "token", token);
    Present(data, "password", password);
    NoErrors(data, ResetFields);
    assert TextOf(Arg(data, "token")) == Some(token) && TextOf(Arg(data, "password")) == Some(password);
  }

  /** A reset token works once: the same request right after a 200 gets 400 and changes nothing. */
  lemma ResetTokenSingleUse(m: D.WhereMarker, data: PhpArray, w: World, w': World, db: Store, token: string, password: string)
    requires Get(data, "token") == Some(VStr(token)) && token != "" && token != "0"
    requires Get(data, "password") == Some(VStr(password)) && password != "" && password != "0" && |password| >= 6
    requires ResetPassword(m, data, w, db).response == Success(VNull, "Password reset successful", 200)
    ensures var db1 := ResetPassword(m, data, w, db).store;
      ResetPassword(m, data, w', db1) == Handled(Error("Invalid or expired reset token", 400, []), db1)
  {
    ResetValidated(m, data, w, db, token, password);
    var db1 := ResetPassword(m, data, w, db).store;
    assert S.ResetOutcome(m, db.users, db.resets, token, password, w.salt, w.now).ok by {
      EnvelopesDistinct(VNull, "Password reset successful", "Invalid or expired reset token", []);
    }
    S.ResetSingleUse(m, db.users, db.resets, token, password, w.salt, w.now, password, w'.salt, w'.now);
    ResetValidated(m, data, w', db1, token, password);
  }

  /**
   * As written, every reset the service is asked for fails: 400 "Invalid or
   * expired reset token", and both tables, the token's row included, stay
   * as they were.
   */
  lemma ResetWithAsWritten(token: string, password: string, w: World, db: Store)
    ensures ResetWith(D.Positional, token, password, w, db) == Handled(Error("Invalid or expired reset token", 400, []), db)
  {
    S.ResetRefusedAsWritten(db.users, db.resets, token, password, w.salt, w.now);
  }

  /** As written, resetPassword never answers 200 and never changes the store. */
  lemma ResetAsWritten(data: PhpArray, w: World, db: Store)
    ensures ResetPassword(D.Positional, data, w, db).store == db
    ensures ResetPassword(D.Positional, data, w, db).response != Success(VNull, "Password reset successful", 200)
  {
    if RequiredErrors(data, ResetFields) == [] {
      match TextOf(Arg(data, "password"))
      case None =>
      case Some(password) =>
        match TextOf(Arg(data, "token"))
        case None =>
        case Some(token) => ResetWithAsWritten(token, password, w, db);
    }
  }

  /** A reset request for a user's mail appends one live row for the hex of the random bytes. */
  lemma ResetRequestIssues(request: PhpArray, w: World, db: Store, email: string, i: nat)
    requires Get(request, "email") == Some(VStr(email)) && email != "" && email != "0" && w.isEmail(email)
    requires i < |db.users| && S.Column(db.users[i], "mail", VStr(email))
    ensures var db1 := RequestPasswordReset(request, w, db).store;
      db1.users == db.users && db1.resets == db.resets + [S.Reset(email, S.Hex(w.bytes), w.now, w.now + S.ResetLifetime)]
  {
    ResetRequestValidated(request, w, db, email);
    IssueForUser(email, w, db, i);
  }

  /** The service issues the hex of the random bytes for a user's mail. */
  lemma IssueForUser(email: string, w: World, db: Store, i: nat)
    requires i < |db.users| && S.Column(db.users[i], "mail", VStr(email))
    ensures var db1 := IssueFor(email, w, db).store;
      db1.users == db.users && db1.resets == db.resets + [S.Reset(email, S.Hex(w.bytes), w.now, w.now + S.ResetLifetime)]
  {
    assert S.Column(db.users[i], ["mail"][0], VStr(email));
    assert S.FirstWhere(db.users, ["mail"], VStr(email)).Some?;
  }

  /**
   * With a live token for a user's mail, the corrected service resets the
   * user's password; as written it answers 400 and keeps the token.
   */
  lemma ResetWithIssued(token: string, password: string, w: World, db: Store, email: string, i: nat)
    requires email != "" && email != "0"
    requires i < |db.users| && S.Column(db.users[i], "mail", VStr(email))
    requires S.ResetEmail(db.resets, token, w.now) == Some(email)
    ensures ResetWith(D.Named, token, password, w, db).response == Success(VNull, "Password reset successful", 200)
    ensures forall p :: S.PasswordVerify(p, ResetWith(D.Named, token, password, w, db).store.users[i].password) <==> p == password
    ensures ResetWith(D.Positional, token, password, w, db) == Handled(Error("Invalid or expired reset token", 400, []), db)
  {
    assert S.CountWhere(db.users, "mail", VStr(email)) > 0;
    assert S.ResetOutcome(D.Named, db.users, db.resets, token, password, w.salt, w.now).ok;
    S.ResetSetsPassword(D.Named, db.users, db.resets, token, password, w.salt, w.now, i);
    ResetWithAsWritten(token, password, w, db);
  }

  /**
   * Requesting a reset, then resetting with the token within the hour:
   * when a user has the mail and no live reset row holds the same token,
   * the corrected reset succeeds and that user verifies the new password
   * and no other.
   */
  lemma ResetFlow(request: PhpArray, reset: PhpArray, w: World, w': World, db: Store, email: string, password: string, i: nat)
    requires Get(request, "email") == Some(VStr(email)) && email != "" && email != "0" && w.isEmail(email)
    requires i < |db.users| && S.Column(db.users[i], "mail", VStr(email))
    requires var token := S.Hex(w.bytes);
      && token != "" && token != "0"
      && (forall j :: 0 <= j < |db.resets| ==> !S.Live(db.resets[j], token, w'.now))
      && Get(reset, "token") == Some(VStr(token))
    requires Get(reset, "password") == Some(VStr(password)) && password != "" && password != "0" && |password| >= 6
    requires w.now <= w'.now < w.now + S.ResetLifetime
    ensures var db1 := RequestPasswordReset(request, w, db).store;
      var h := ResetPassword(D.Named, reset, w', db1);
      && h.response == Success(VNull, "Password reset successful", 200)
      && forall p :: S.PasswordVerify(p, h.store.users[i].password) <==> p == password
  {
    var token := S.Hex(w.bytes);
    var row := S.Reset(email, token, w.now, w.now + S.ResetLifetime);
    ResetRequestIssues(request, w, db, email, i);
    var db1 := RequestPasswordReset(request, w, db).store;
    S.ResetEmailFirst(db.resets, row, token, w'.now);
    ResetValidated(D.Named, reset, w', db1, token, password);
    ResetWithIssued(token, password, w', db1, email, i);
  }

  // ---------------------------------------------------------------------------
  // changePassword

  const ChangeFields: seq<string> := ["current_password", "new_password"]

  /**
   * changePassword: after requireAuth, 400 for missing fields or a new
   * password shorter than 6, then ChangeChecked. The users table only
   * changes with a 200.
   */
  function ChangePassword(m: D.WhereMarker, header: Option<string>, data: PhpArray, w: World, db: Store): (h: Handled)
    ensures Authenticated(header, w, db).0.Refused? ==>
      h == Handled(Authenticated(header, w, db).0.response, Authenticated(header, w, db).1)
    ensures h.store.sessions == Authenticated(header, w, db).1.sessions && h.store.resets == db.resets
    ensures h.store.users != db.users ==> h.response == Success(VNull, "Password changed successfully", 200)
    ensures |h.store.users| == |db.users|
  {
    var (a, db1) := Authenticated(header, w, db);
    if a.Refused? then Handled(a.response, db1)
    else
      var errors := RequiredErrors(data, ChangeFields);
      if errors != [] then Handled(Error("Validation failed", 400, errors), db1)
      else ChangeChecked(m, a.claims.userId, TextOf(Arg(data, "current_password")), TextOf(Arg(data, "new_password")), w, db1)
  }

  /**
   * changePassword after validation: the length check, then the user's row
   * (404 when there is none; getUserById and the password query find the
   * same first row), 401 when the current password does not verify against
   * it, then updatePassword: 500 when PDO refuses its UPDATE (exactly with
   * the positional marker, by S.PasswordUpdateNames) or no row has the id,
   * else 200 and the user's rows get the new hash.
   */
  function ChangeChecked(m: D.WhereMarker, userId: Option<int>, current: Option<string>, next: Option<string>, w: World, db: Store): (h: Handled)
    ensures h.store.sessions == db.sessions && h.store.resets == db.resets
    ensures h.store.users != db.users ==> h.response == Success(VNull, "Password changed successfully", 200)
    ensures |h.store.users| == |db.users|
  {
    if next.None? then Handled(TypeError, db)
    else if |next.value| < 6 then Handled(Error("New password must be at least 6 characters long", 400, []), db)
    else if userId.None? then Handled(TypeError, db)
    else match S.FirstWhere(db.users, ["id_user_pk"], VInt(userId.value))
      case None => Handled(Error("User not found", 404, []), db)
      case Some(i) =>
        if current.None? then Handled(TypeError, db)
        else if !S.PasswordVerify(current.value, db.users[i].password) then
          Handled(Error("Current password is incorrect", 401, []), db)
        else if m.Named? && S.CountWhere(db.users, "id_user_pk", VInt(userId.value)) > 0 then
          Handled(Success(VNull, "Password changed successfully", 200),
            db.(users := S.SetPasswordWhere(db.users, "id_user_pk", VInt(userId.value), S.HashPassword(next.value, w.salt), w.now)))
        else Handled(Error("Failed to change password", 500, []), db)
  }

  /** getUserById finds nothing exactly when the password query finds nothing. */
  lemma SameRowFound(users: seq<S.User>, id: int)
    ensures S.GetUserById(users, id).None? <==> S.FirstWhere(users, ["id_user_pk"], VInt(id)).None?
  {
    match S.FirstWhere(users, ["id_user_pk"], VInt(id))
    case None =>
    case Some(i) =>
  }

  /** A request with both passwords as strings passes validation. */
  lemma ChangeValidated(m: D.WhereMarker, header: Option<string>, data: PhpArray, w: World, db: Store, current: string, next: string)
    requires Authenticated(header, w, db).0.Authorized?
    requires Get(data, "current_password") == Some(VStr(current)) && current != "" && current != "0"
    requires Get(data, "new_password") == Some(VStr(next)) && next != "" && next != "0"
    ensures ChangePassword(m, header, data, w, db) ==
      ChangeChecked(m, Authenticated(header, w, db).0.claims.userId, Some(current), Some(next), w, Authenticated(header, w, db).1)
  {
    Present(data, "current_password", current);
    Present(data, "new_password", next);
    NoErrors(data, ChangeFields);
    assert TextOf(Arg(data, "current_password")) == Some(current) && TextOf(Arg(data, "new_password")) == Some(next);
  }

  /**
   * For an authorized user with a row and a long enough new password: 401
   * and nothing changed when the current password does not verify against
   * the user's first row; otherwise, as written, 500 "Failed to change
   * password" and nothing changed, and, corrected, 200 with every row of
   * the user holding the new hash.
   */
  lemma ChangeResponses(m: D.WhereMarker, header: Option<string>, data: PhpArray, w: World, db: Store, id: int, j: nat, current: string, next: string)
    requires Authenticated(header, w, db).0.Authorized? && Authenticated(header, w, db).0.claims.userId == Some(id)
    requires Get(data, "current_password") == Some(VStr(current)) && current != "" && current != "0"
    requires Get(data, "new_password") == Some(VStr(next)) && next != "" && next != "0" && |next| >= 6
    requires S.FirstWhere(db.users, ["id_user_pk"], VInt(id)) == Some(j)
    ensures !S.PasswordVerify(current, db.users[j].password) ==>
      ChangePassword(m, header, data, w, db) == Handled(Error("Current password is incorrect", 401, []), Authenticated(header, w, db).1)
    ensures S.PasswordVerify(current, db.users[j].password) && m.Positional? ==>
      ChangePassword(m, header, data, w, db) == Handled(Error("Failed to change password", 500, []), Authenticated(header, w, db).1)
    ensures S.PasswordVerify(current, db.users[j].password) && m.Named? ==>
      && ChangePassword(m, header, data, w, db).response == Success(VNull, "Password changed successfully", 200)
      && ChangePassword(m, header, data, w, db).store.users ==
           S.SetPasswordWhere(db.users, "id_user_pk", VInt(id), S.HashPassword(next, w.salt), w.now)
  {
    ChangeValidated(m, header, data, w, db, current, next);
    var db1 := Authenticated(header, w, db).1;
    assert db1.users == db.users;
    ChangeCheckedResponses(m, id, j, current, next, w, db1);
  }

  /**
   * ChangeChecked for a user with a row and a long enough new password:
   * 401 on a wrong current password, else 500 as written and 200 corrected.
   */
  lemma ChangeCheckedResponses(m: D.WhereMarker, id: int, j: nat, current: string, next: string, w: World, db: Store)
    requires |next| >= 6 && S.FirstWhere(db.users, ["id_user_pk"], VInt(id)) == Some(j)
    ensures !S.PasswordVerify(current, db.users[j].password) ==>
      ChangeChecked(m, Some(id), Some(current), Some(next), w, db) == Handled(Error("Current password is incorrect", 401, []), db)
    ensures S.PasswordVerify(current, db.users[j].password) && m.Positional? ==>
      ChangeChecked(m, Some(id), Some(current), Some(next), w, db) == Handled(Error("Failed to change password", 500, []), db)
    ensures S.PasswordVerify(current, db.users[j].password) && m.Named? ==>
      ChangeChecked(m, Some(id), Some(current), Some(next), w, db) ==
        Handled(Success(VNull, "Password changed successfully", 200),
          db.(users := S.SetPasswordWhere(db.users, "id_user_pk", VInt(id), S.HashPassword(next, w.salt), w.now)))
  {
    assert S.MatchesAny(db.users[j], ["id_user_pk"], VInt(id));
    assert S.Column(db.users[j], "id_user_pk", VInt(id));
    assert S.CountWhere(db.users, "id_user_pk", VInt(id)) > 0;
  }

  /**
   * As written, changePassword never changes the users table, and once the
   * token is accepted it never answers 200.
   */
  lemma ChangeAsWritten(header: Option<string>, data: PhpArray, w: World, db: Store)
    ensures ChangePassword(D.Positional, header, data, w, db).store.users == db.users
    ensures Authenticated(header, w, db).0.Authorized? ==>
      ChangePassword(D.Positional, header, data, w, db).response != Success(VNull, "Password changed successfully", 200)
  {
    var (a, db1) := Authenticated(header, w, db);
    if a.Authorized? && RequiredErrors(data, ChangeFields) == [] {
      ChangeCheckedAsWritten(a.claims.userId, TextOf(Arg(data, "current_password")), TextOf(Arg(data, "new_password")), w, db1);
    }
  }

  /**
   * As written, ChangeChecked never answers 200 and never changes the store:
   * PDO refuses the positional UPDATE (S.PasswordUpdateNames).
   */
  lemma ChangeCheckedAsWritten(userId: Option<int>, current: Option<string>, next: Option<string>, w: World, db: Store)
    ensures ChangeChecked(D.Positional, userId, current, next, w, db).store == db
    ensures ChangeChecked(D.Positional, userId, current, next, w, db).response != Success(VNull, "Password changed successfully", 200)
  {
  }

  /**
   * After a corrected changePassword, any identifier of the user that logs
   * in to one of the user's rows opens it with the new password, and no
   * longer with the current one when they differ.
   */
  lemma ChangePasswordThenLogin(header: Option<string>, data: PhpArray, w: World, db: Store, id: int, j: nat,
                                current: string, next: string, identifier: string, i: nat)
    requires Authenticated(header, w, db).0.Authorized? && Authenticated(header, w, db).0.claims.userId == Some(id)
    requires Get(data, "current_password") == Some(VStr(current)) && current != "" && current != "0"
    requires Get(data, "new_password") == Some(VStr(next)) && next != "" && next != "0" && |next| >= 6
    requires S.FirstWhere(db.users, ["id_user_pk"], VInt(id)) == Some(j) && S.PasswordVerify(current, db.users[j].password)
    requires S.FirstLogin(db.users, identifier, i) && S.Column(db.users[i], "id_user_pk", VInt(id))
    ensures var users := ChangePassword(D.Named, header, data, w, db).store.users;
      && S.Authenticate(users, identifier, next) == Some(users[i].columns)
      && (current != next ==> S.Authenticate(users, identifier, current).None?)
  {
    ChangeResponses(D.Named, header, data, w, db, id, j, current, next);
    var users := ChangePassword(D.Named, header, data, w, db).store.users;
    assert users == S.SetPasswordWhere(db.users, "id_user_pk", VInt(id), S.HashPassword(next, w.salt), w.now);
    S.SetPasswordThenLogin(db.users, "id_user_pk", VInt(id), next, w.salt, w.now, identifier, current, i);
  }
}
