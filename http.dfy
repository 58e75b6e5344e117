/**
 * Request-level notions shared by the router, the base controller and the
 * authentication service: JWT claims and the outcome of decoding a token,
 * rows of the `sessions` table, responses, and extraction of the bearer
 * token from an `Authorization` header.
 *
 * The JWT library is not modelled: decoding is a function parameter that
 * says, for a key and a token, whether the token carries valid claims, has
 * expired, or is rejected with a message (and encoding likewise).
 * Times are integer seconds.
 */
module Http {
  import opened Strings
  import opened Php

  /**
   * The claims AuthService::generateToken signs. `userId` is None when a
   * token signed with the right key carries no `user_id` claim.
   */
  datatype Claims = Claims(
    iss: string, aud: string, iat: int, exp: int,
    userId: Option<int>, username: string, email: string, permissionLevel: int)

  datatype Decoded = Valid(claims: Claims) | Expired | Rejected(message: string)

  /** The key JWT::decode checks a token against: a secret and the algorithm it is used with. */
  datatype JwtKey = JwtKey(secret: string, algorithm: string)

  /** JWT::decode with a key: the token is checked against the key. */
  type Decoder = (JwtKey, string) -> Decoded

  /** A row of `sessions` as AuthService reads and writes it. */
  datatype Session = Session(id: int, userId: int, token: string, createdAt: int, expiresAt: int)

  /**
   * What the server sends: a JSON body with a status, a bare status with no
   * body (`http_response_code(200); exit;`), or an uncaught PHP error.
   */
  datatype Response = Json(status: int, body: PhpArray) | Bare(status: int) | Fatal(reason: string)

  /** `json_encode(['message' => m])`. */
  function MessageBody(m: string): (b: PhpArray)
    ensures Wf(b) && b.keys == ["message"] && Get(b, "message") == Some(VStr(m))
  {
    Put(EmptyMap(), "message", VStr(m))
  }

  // ---------------------------------------------------------------------------
  // The bearer token: `preg_match('/Bearer\s(\S+)/', $header, $m)`, `$m[1]`

  /** "Bearer", one `\s` character, then a non-space character start at `i`. */
  predicate BearerAt(h: string, i: int) {
    0 <= i && i + 8 <= |h| && h[i..i + 6] == "Bearer" && IsRegexSpace(h[i + 6]) && !IsRegexSpace(h[i + 7])
  }

  /** The length of the run of non-space characters at the start of `s` (`\S+` is greedy). */
  function NonSpaceRun(s: string): (n: nat)
    ensures n <= |s|
    ensures forall k :: 0 <= k < n ==> !IsRegexSpace(s[k])
    ensures n < |s| ==> IsRegexSpace(s[n])
    decreases |s|
  {
    if s != [] && !IsRegexSpace(s[0]) then 1 + NonSpaceRun(s[1..]) else 0
  }

  /** The leftmost position at or after `i` where the pattern matches. */
  function FirstBearer(h: string, i: nat): (r: Option<nat>)
    ensures r.Some? ==> i <= r.value && BearerAt(h, r.value) && forall k :: i <= k < r.value ==> !BearerAt(h, k)
    ensures r.None? ==> forall k :: i <= k ==> !BearerAt(h, k)
    decreases |h| - i
  {
    if i + 8 > |h| then None
    else if BearerAt(h, i) then Some(i)
    else FirstBearer(h, i + 1)
  }

  /** The group `(\S+)` of a match at `j`: the whole run of non-space characters after "Bearer ". */
  function Capture(h: string, j: nat): (t: string)
    requires BearerAt(h, j)
    ensures |t| >= 1 && j + 7 + |t| <= |h| && t == h[j + 7..j + 7 + |t|]
    ensures forall k :: 0 <= k < |t| ==> !IsRegexSpace(t[k])
    ensures j + 7 + |t| == |h| || IsRegexSpace(h[j + 7 + |t|])
  {
    var n := NonSpaceRun(h[j + 7..]);
    assert j + 7 + n < |h| ==> h[j + 7 + n] == h[j + 7..][n];
    h[j + 7..j + 7 + n]
  }

  /**
   * The token the code goes on with, or None when it answers "Missing or
   * invalid token": a missing header or one PHP reads as false ("" and "0")
   * fails the `!$authHeader` test before the pattern is tried; otherwise the
   * token is the capture of the leftmost match.
   */
  function BearerToken(header: Option<string>): Option<string> {
    match header
    case None => None
    case Some(h) =>
      if h == "" || h == "0" then None
      else match FirstBearer(h, 0)
        case None => None
        case Some(j) => Some(Capture(h, j))
  }

  /**
   * A token is found exactly when the header is set, is not "" or "0", and
   * holds "Bearer", a white-space character and a non-space character; the
   * token is then non-empty, holds no white space, and is what follows the
   * first such "Bearer " up to the end or the next white space.
   */
  lemma BearerTokenSpec(header: Option<string>)
    ensures BearerToken(header).Some? <==>
      header.Some? && header.value != "" && header.value != "0" && exists j :: BearerAt(header.value, j)
    ensures BearerToken(header).Some? ==>
      exists j :: BearerAt(header.value, j) && (forall k :: 0 <= k < j ==> !BearerAt(header.value, k)) &&
        BearerToken(header).value == Capture(header.value, j)
  {
  }

  /** The header `Bearer <t>` yields `t` back, for every non-empty token without white space. */
  lemma BearerRoundTrip(t: string)
    requires |t| >= 1 && forall k :: 0 <= k < |t| ==> !IsRegexSpace(t[k])
    ensures BearerToken(Some("Bearer " + t)) == Some(t)
  {
    var h := "Bearer " + t;
    assert h[0..6] == "Bearer" && h[6] == ' ' && h[7] == t[0];
    assert BearerAt(h, 0);
    assert h[7..] == t;
    NonSpaceAll(t);
    assert h[7..7 + |t|] == t;
    assert Capture(h, 0) == t;
    assert |h| >= 8;
    assert FirstBearer(h, 0) == Some(0);
  }

  lemma {:induction false} NonSpaceAll(t: string)
    requires forall k :: 0 <= k < |t| ==> !IsRegexSpace(t[k])
    ensures NonSpaceRun(t) == |t|
    decreases |t|
  {
    if t != [] {
      NonSpaceAll(t[1..]);
    }
  }

  // ---------------------------------------------------------------------------
  // Sessions

  /** `SELECT * FROM sessions WHERE id_user_fk = ? AND session_token = ?` found a row. */
  predicate HasSession(sessions: seq<Session>, userId: Option<int>, token: string) {
    exists i :: 0 <= i < |sessions| && Some(sessions[i].userId) == userId && sessions[i].token == token
  }

  /** `DELETE FROM sessions WHERE session_token = ?`: the rows left, in order. */
  function DeleteByToken(sessions: seq<Session>, token: string): (r: seq<Session>)
    ensures |r| <= |sessions|
    ensures forall s :: s in r <==> s in sessions && s.token != token
  {
    if sessions == [] then []
    else if sessions[0].token == token then DeleteByToken(sessions[1..], token)
    else [sessions[0]] + DeleteByToken(sessions[1..], token)
  }
}
