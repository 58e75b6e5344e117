# easy-api-setup in Dafny

A model of the core of easy-api-setup, a PHP framework for CRUD REST APIs, with proofs about it. The modelled parts are:

- the router: route registration, request-URI normalisation, the authentication gate and first-match dispatch;
- the concrete route table the application registers;
- the dotted-path configuration store;
- the controller helpers: response envelopes, required-field validation, sanitisation, pagination and requireAuth;
- the authentication service over its `users`, `sessions` and `password_resets` tables;
- the authentication endpoints;
- the category endpoints, including the recursive category tree;
- the SQL and DSN text the database wrapper builds, and PDO's refusal of an UPDATE that mixes named and `?` markers;
- the CORS header decision.

Layout, one module per file:

- `strings.dfy`, module Strings: `explode`/`implode`, `trim`, decimal rendering and the leading-integer reading of strings
- `php.dfy`, module Php: PHP values and arrays as insertion-ordered maps
- `http.dfy`, module Http: JWT claims and decode outcomes, session rows, responses, bearer-token extraction
- `base_controller.dfy`, module BaseController: src/Core/BaseController.php
- `config.dfy`, module Config: src/Core/Config.php (class `Config`)
- `cors.dfy`, module Cors: src/Core/Cors.php and the origin choice in public/index.php
- `database.dfy`, module Database: the text building in src/Core/Database.php, and whether PDO prepares the UPDATE text
- `router.dfy`, module Router: src/Core/Router.php (class `Router`)
- `router_properties.dfy`, module RouterProperties: properties of routing and the gate
- `routes.dfy`, module WebRoutes: src/Routes/web.php as a list of registrations
- `auth_service.dfy`, module AuthService: src/Services/AuthService.php (class `AuthService`)
- `auth_controller.dfy`, module AuthController: src/Controllers/GenericAuthController.php
- `category_tree.dfy`, module CategoryTree: CategoryController::buildCategoryTree
- `category.dfy`, module CategoryController: the rest of src/Controllers/CategoryController.php (class `Categories`)

How PHP is represented:

- A response that ends the request (`error()`/`success()` followed by `exit`) is a returned `Response` value.
- An uncaught PHP `Error` (a TypeError, a DivisionByZeroError, stack exhaustion) is `Fatal`.
- A caught PDOException is the 500 envelope the controller builds from the driver's message.
- The operations that reach Database::update take its WHERE marker as a parameter (`Database.WhereMarker`): `Positional` is the source as written, whose `?` PDO refuses, and `Named` is the corrected binding. The members that name one of the two say which in their rows.
- Classes whose fields the source updates in place are Dafny classes. Each method is proved equal to a function of the old state, and the properties are lemmas about those functions.
- Loops become methods with loop invariants and are proved against recursive specification functions. These are:
  - the router's classification and matching loops;
  - the dotted-path write of configuration `set`;
  - validateRequired and sanitizeArray;
  - the SET clause of UPDATE;
  - the required-field loop of register;
  - the update-data loops of updateProfile and the category update;
  - the foreach of buildCategoryTree and the metadata-decoding foreach.
- Things outside the program are parameters:
  - the JWT library is a decoder function from key and token to `Valid(claims)`, `Expired` or `Rejected(message)`;
  - `now` and the random bytes are parameters;
  - `password_hash` is an injective tag of password and salt;
  - `strip_tags`, `filter_var` email validation and `json_encode`/`json_decode` are functions passed in;
  - the request (headers, query, body) is an input.

## Model

| member | source | states |
|---|---|---|
| Http.BearerTokenSpec | src/Core/Router.php:130-138 | a token is found exactly when the header is set, is neither "" nor "0", and holds "Bearer", one white-space character and a non-space character; the token is then the non-space run after the leftmost such match |
| Http.BearerRoundTrip | src/Core/BaseController.php:175-177 | the header `Bearer t` yields `t` for every non-empty token without white space |
| Http.DeleteByToken | src/Core/Router.php:166-169 | the sessions left are exactly those whose token differs from the expired one, none added |
| BaseController.SuccessBody | src/Core/BaseController.php:39-51 | the body has success = true and the message, and a `data` key exactly when the data is not null, in the order success, message, data |
| BaseController.Success | src/Core/BaseController.php:39-51 | a JSON response with the given status from which a client reads success = true, the message, and the data back, or no `data` at all when it was null |
| BaseController.ErrorBody | src/Core/BaseController.php:56-68 | the body has success = false and the message, and an `errors` key exactly when the list is non-empty |
| BaseController.Error | src/Core/BaseController.php:56-68 | a JSON response with the given status from which a client reads success = false, the message, and the list of errors back, or no `errors` at all when the list was empty |
| BaseController.EnvelopesDistinct | src/Core/BaseController.php:39-68 | no success body equals an error body |
| BaseController.MissingFieldsMembers | src/Core/BaseController.php:89-100 | a field is reported exactly when it is required and absent or PHP-empty |
| BaseController.RequiredErrorsSpec | src/Core/BaseController.php:89-100 | no errors exactly when every required field is set and non-empty; otherwise message i is `Field 'f' is required` for the i-th missing field, in the order required |
| BaseController.RequiredErrorsAppend | src/Core/BaseController.php:89-100 | the errors for a list of fields are those of its front followed by those of its back |
| BaseController.ValidateRequired | src/Core/BaseController.php:89-100 | the foreach returns exactly the messages of RequiredErrors |
| BaseController.EscapeRoundTrip | src/Core/BaseController.php:113-116 | htmlspecialchars with ENT_QUOTES loses nothing: unescaping its output gives the input back |
| BaseController.EscapeRemovesMarkup | src/Core/BaseController.php:113-116 | escaped text holds no `<`, `>`, `"` or `'` |
| BaseController.EscapePlainText | src/Core/BaseController.php:113-116 | text holding none of the five special characters is left unchanged |
| BaseController.EscapeLonger | src/Core/BaseController.php:113-116 | escaping never shortens a text and lengthens every text holding a special character |
| BaseController.EscapeTwice | src/Core/BaseController.php:113-116 | sanitising twice is not idempotent: `&` becomes `&amp;` and then `&amp;amp;` |
| BaseController.SanitizeKeepsShape | src/Core/BaseController.php:121-136 | sanitising keeps every key, its order and the nesting, and changes no non-string value |
| BaseController.SanitizeEntries | src/Core/BaseController.php:121-136 | each entry: a string is sanitised, an array is sanitised recursively, anything else is kept |
| BaseController.SanitizeArray | src/Core/BaseController.php:121-136 | the recursive foreach returns exactly SanitizedArray of its input |
| BaseController.CeilDiv | src/Core/BaseController.php:160 | for a positive divisor the result c is the least with a <= c * b |
| BaseController.PageWindow | src/Core/BaseController.php:141-164 | a divisor of zero is an error; otherwise from = offset + 1, to = min(offset + perPage, total), and last_page is the ceiling of total / perPage |
| BaseController.ClampPage | src/Core/BaseController.php:143 | the page is at least 1 and a page from 1 on is kept |
| BaseController.Paginate | src/Core/BaseController.php:141-164 | zero perPage fails; otherwise the page is clamped and the count and page queries use offset (page - 1) * perPage |
| BaseController.WindowsTile | src/Core/BaseController.php:141-164 | consecutive pages tile the rows: each page starts after the previous one ends, pages up to the last start on an existing row, the last page ends on the last row, later pages start past the end |
| BaseController.RequireAuthSpec | src/Core/BaseController.php:170-209 | 401 for a missing or malformed header, an expired token (whose sessions are deleted), a rejected token and a token without a session; otherwise the claims, and no other case changes the sessions |
| BaseController.RequireAuthMatchesRouter | src/Core/BaseController.php:170-209 | when `jwt.algorithm` is HS256, the one the router decodes with, requireAuth lets a request in exactly when the router's gate does, and both leave the same sessions |
| BaseController.OtherAlgorithmLocksOut | src/Core/BaseController.php:183-186 | when `jwt.algorithm` is another algorithm, a token valid under it with a session passes requireAuth and is refused 401 by the router's gate, which decodes with HS256 (src/Core/Router.php:141) |
| Config.WalkReach | src/Core/Config.php:150-160 | the dotted walk returns the value at the path, null included, or the default at the first step that is not an array or lacks the key |
| Config.GetSpec | src/Core/Config.php:144-160 | a plain key gives its value unless it is missing or null, then the default; a dotted key gives the value at its path, or the default when the path does not exist |
| Config.StoreReach | src/Core/Config.php:163-181 | after a store, the path leads to the stored value |
| Config.StoreMakesArrays | src/Core/Config.php:173-178 | after a store, every proper prefix of the path leads to an array |
| Config.StoreFrame | src/Core/Config.php:163-181 | a store changes nothing reachable along a path that diverges from the stored one |
| Config.StoreWf | src/Core/Config.php:163-181 | a store keeps every array well formed |
| Config.SetThenGet | src/Core/Config.php:124-181 | get after set on the same key returns the value, except that a null set under a plain key reads as the default |
| Config.SetMakesArrays | src/Core/Config.php:173-178 | set on a dotted key leaves an array at every proper prefix of its path, replacing missing and non-array entries |
| Config.SetFrame | src/Core/Config.php:163-181 | set changes no value along a path that diverges from the key's path |
| Config.SetFrameGet | src/Core/Config.php:124-181 | get of a key whose path diverges from the one set returns what it returned before |
| Config.EnvInt | src/Core/Config.php:59 | an integer, and the default when the variable is not set |
| Config.EnvBool | src/Core/Config.php:82 | a boolean, and the default when the variable is not set |
| Config.EnvListDefault | src/Core/Config.php:77-80 | without the variable, the list is the default string exploded at its commas |
| Config.TwoSegmentGet | src/Core/Config.php:150-160 | get of `s.k` is entry `k` of the array stored under `s` |
| Config.JwtSectionLoaded | src/Core/Config.php:56-62 | loadConfig stores the JWT section under `jwt` |
| Config.JwtExpiresDefault | src/Core/Config.php:59 | without JWT_EXPIRES_IN, `jwt.expires_in` is 86400 |
| Config.JwtAlgorithmDefault | src/Core/Config.php:58 | without JWT_ALGORITHM, `jwt.algorithm` is "HS256" |
| Config.Config.constructor | src/Core/Config.php:16-19 | the store holds what loadConfig builds |
| Config.Config.Get | src/Core/Config.php:124-127 | a plain key gives its value when set and non-null, else the default; a dotted key gives the value at its path, else the default |
| Config.Config.Has | src/Core/Config.php:134-137 | true exactly when the key resolves to a value other than null |
| Config.Config.Set | src/Core/Config.php:129-181 | the reference walk leaves the store equal to SetNested of the old one |
| Cors.AllowOriginSpec | src/Core/Cors.php:21-25 | the allow-origin line is emitted exactly when the request origin, empty when absent, equals a trimmed entry; it then comes first and echoes that origin |
| Cors.AllowOriginEmitted | src/Core/Cors.php:20-25 | the same, stated as membership in the trimmed list |
| Cors.FixedLinesSpec | src/Core/Cors.php:27-30 | the methods, allow-headers, expose-headers and credentials lines always come last, in that order; credentials reads `true` exactly when the flag is truthy |
| Cors.ImplodeStrings | public/index.php:36-38 | imploding a list of strings gives their join with ", " |
| Cors.FirstOriginSetting | public/index.php:31-32 | the origin setting is the first configured origin |
| Cors.OnlyFirstOrigin | public/index.php:31-35 | with a list of origins, the allow-origin line is emitted exactly when the request origin is the first entry, trimmed |
| Cors.SingleOrigin | src/Core/Cors.php:20-25 | an origin setting without commas echoes only itself, trimmed |
| Cors.MethodsJoined | public/index.php:36 | a configured list of methods is passed as its join with ", " |
| Database.BuildDsn | src/Core/Database.php:53-79 | a DSN exactly for mysql, pgsql and sqlite; any other connection is an error naming it |
| Database.MysqlDsnRoundTrip | src/Core/Database.php:56-63 | the mysql DSN reads back as the mysql driver with host, port, dbname and charset, in that order |
| Database.PgsqlDsnRoundTrip | src/Core/Database.php:65-71 | the pgsql DSN reads back as the pgsql driver with host, port and dbname |
| Database.SqliteDsnRoundTrip | src/Core/Database.php:73-74 | the sqlite DSN is `sqlite:` followed by the database name |
| Database.PlaceholderList | src/Core/Database.php:116 | `':' . implode(', :', keys)` is the placeholders `:k` joined with ", ", one per key |
| Database.InsertSpec | src/Core/Database.php:113-118 | the INSERT of a non-empty row names its columns in key order with one placeholder each at the same position, bound with the row |
| Database.InsertEmpty | src/Core/Database.php:115-118 | an empty row gives `()` and the lone placeholder `:` |
| Database.SetClause | src/Core/Database.php:127-130 | the foreach builds one `c = :c` per column, in key order |
| Database.UpdateStatement | src/Core/Database.php:125-137 | the method builds the statement `UPDATE t SET ... WHERE w` of Update |
| Database.UpdateParamOrder | src/Core/Database.php:135 | array_merge lists the data keys in order, then the WHERE values renumbered 0, 1, ... |
| Database.UpdateParamValues | src/Core/Database.php:135 | the merged parameters bind every column to its data value and index j to the j-th WHERE value |
| Database.PositionalRefused | src/Core/Database.php:125-138 | for plain names and a non-empty SET clause, the UPDATE with the callers' `column = ?` holds a named marker and a `?` outside quotes, so PDO refuses it |
| Database.NamedPrepares | src/Core/Database.php:125-138 | with a named WHERE marker the UPDATE holds no `?`, so PDO prepares it |
| Database.MergeStrings | src/Core/Database.php:135 | array_merge of string-keyed entries assigns them in place |
| Database.MergeIntKeys | src/Core/Database.php:135 | array_merge appends integer-keyed entries under the next indices |
| Database.DeleteRoundTrip | src/Core/Database.php:141-145 | the DELETE text reads back, word by word, as the table (one without a space) and the whole condition, and it is bound with the WHERE parameters as given, none merged or renumbered |
| Router.PlaceholderLen | src/Core/Router.php:182 | a recognised placeholder is `{`, a name of the form `[a-zA-Z_][a-zA-Z0-9_]*`, then `}` |
| Router.CompileLiteral | src/Core/Router.php:182 | text without an opening brace is copied literally into the pattern |
| Router.CompilePlaceholder | src/Core/Router.php:182 | every placeholder becomes one capture group, whatever its name |
| Router.PlaceholderNamesIrrelevant | src/Core/Router.php:182 | renaming a placeholder does not change the compiled pattern |
| Router.CapRun | src/Core/Router.php:182 | the group `[a-zA-Z0-9_-]+` reaches exactly up to the first character outside it |
| Router.MatchSound | src/Core/Router.php:183-185 | what the matcher returns is a reading of the path as the pattern with those captures, anchored at both ends (`$` also before one final newline) |
| Router.MatchComplete | src/Core/Router.php:183-185 | every reading of the path as the pattern is found: the matcher misses no match |
| Router.LiteralRouteMatch | src/Core/Router.php:183-185 | a route without placeholders matches exactly itself, or itself and one newline, with no captures |
| Router.RegisterSpec | src/Core/Router.php:12-39 | registering sets the handler and leaves the other methods alone; a new path is appended to the order, a path registered again keeps its place |
| Router.RequestUriSpec | src/Core/Router.php:41-66 | in production or prod a leading "/api" is cut by a plain prefix test, and an empty or "0" rest becomes "/"; any other path, and every path outside production, is kept |
| Router.RouterGateSpec | src/Core/Router.php:128-178 | the gate lets a request through exactly when the bearer token decodes, under HS256, to claims whose user holds a session with that token; only an expired token changes the sessions, deleting its rows |
| Router.HandlerSpec | src/Core/Router.php:187-190 | a handler `C@a` calls action `a` of controller `C` with the captured arguments |
| Router.FirstMatch | src/Core/Router.php:181-193 | the hit is the first route from position i on whose pattern matches, with its handler and captures; None when no route matches |
| Router.Classify | src/Core/Router.php:109-125 | the classification loop returns IsPublic: a GET is public unless a private GET pattern matches; another method is public when its path is listed |
| Router.Lookup | src/Core/Router.php:181-193 | the matching loop returns the first matching route in registration order |
| Router.Router.constructor | src/Core/Router.php:10 | the table starts empty |
| Router.Router.Register | src/Core/Router.php:18 | the table becomes AddRoute of the old one |
| Router.Router.Get | src/Core/Router.php:12-19 | the GET table gets the route, as AddRoute states |
| Router.Router.Post | src/Core/Router.php:21-24 | the POST table gets the route, as AddRoute states |
| Router.Router.Put | src/Core/Router.php:26-29 | the PUT table gets the route, as AddRoute states |
| Router.Router.Delete | src/Core/Router.php:31-34 | the DELETE table gets the route, as AddRoute states |
| Router.Router.Options | src/Core/Router.php:36-39 | the OPTIONS table gets the route, as AddRoute states |
| Router.Router.Dispatch | src/Core/Router.php:68-198 | the method's outcome and the sessions after it are those of DispatchSpec |
| RouterProperties.PrivateGetSpec | src/Core/Router.php:102-122 | a GET is private exactly for "/auth/me" and "/auth/profile", each also with one final newline |
| RouterProperties.LiteralListMatch | src/Core/Router.php:115-122 | some route of a list without placeholders matches exactly when the path is one of them, or one of them and a newline |
| RouterProperties.OptionsNotGated | src/Core/Router.php:75-89 | OPTIONS never reaches the gate: the sessions are untouched and the answer is the OPTIONS route for exactly that path, or a bare 200 |
| RouterProperties.MutationsGated | src/Core/Router.php:127-178 | PUT and DELETE always meet the gate, and a denial answers 401 before any lookup |
| RouterProperties.NoTokenRejected | src/Core/Router.php:132-136 | a gated request without a usable bearer token gets 401 "Unauthorized: Missing or invalid token" and nothing else happens |
| RouterProperties.PublicIgnoresCredentials | src/Core/Router.php:109-198 | on a public route the header, key and sessions play no part: the first matching route, or 404 |
| RouterProperties.DispatchPastGate | src/Core/Router.php:180-197 | past the gate, dispatch is the route lookup alone |
| RouterProperties.NotFoundIffNoRoute | src/Core/Router.php:180-197 | past the gate, the answer is 404 exactly when no route of the method matches |
| RouterProperties.FirstRouteWins | src/Core/Router.php:181-192 | past the gate, the route called is the first matching one, with its captures |
| RouterProperties.FirstMatchSkip | src/Core/Router.php:181-193 | a route that does not match is passed over |
| RouterProperties.FirstMatchHere | src/Core/Router.php:185-191 | a matching route ends the lookup with its handler and captures |
| RouterProperties.RoutePrefix | src/Core/Router.php:182-185 | a route only matches paths that start with its text before the first brace |
| RouterProperties.ParamRouteMatch | src/Core/Router.php:182-185 | `a{name}b` matches exactly `a x b`, optionally with one newline, for a non-empty run x of letters, digits, `_` and `-`, and captures such an x |
| RouterProperties.PrefixMiss | src/Core/Router.php:182-185 | a path differing from the route's literal start does not match |
| RouterProperties.ParamRouteMissSuffix | src/Core/Router.php:182-185 | a path lacking the route's literal end does not match a one-placeholder route |
| RouterProperties.ParamRouteHit | src/Core/Router.php:182-186 | `a x b` matches `a{name}b` with parameter x when b is empty or starts outside the group |
| RouterProperties.ParamCoversLiteral | src/Core/Router.php:181-185 | `a{name}` matches every path that a literal `a x` matches |
| RouterProperties.ShadowedRoute | src/Core/Router.php:181-192 | in a table where `a{name}` comes before `a x`, no path reaches `a x` |
| WebRoutes.AddFresh | src/Core/Router.php:12-39 | adding a path the method does not have yet appends it, with its handler, at the end of that method's table |
| WebRoutes.LoadWf | src/Routes/web.php:24-77 | the registration sequence keeps every method's table well formed |
| WebRoutes.LoadSpec | src/Routes/web.php:24-77 | when the paths registered for a method are new and distinct, its table lists them after the old ones, in registration order, each with its handler |
| WebRoutes.WebTable | src/Routes/web.php:24-77 | the table web.php leaves in the router is well formed |
| WebRoutes.WebGetTable | src/Routes/web.php:27-73 | the GET table holds exactly the fourteen GET paths in file order, with their handlers |
| WebRoutes.WebPutTable | src/Routes/web.php:28-77 | the PUT table holds exactly the nine PUT paths in file order, with their handlers |
| WebRoutes.GetRoutesDistinct | src/Routes/web.php:27-73 | no GET path is registered twice |
| WebRoutes.PutRoutesDistinct | src/Routes/web.php:28-77 | no PUT path is registered twice |
| WebRoutes.LiteralMiss | src/Core/Router.php:182-185 | a route without placeholders misses every other path |
| WebRoutes.TreeFirstMatch | src/Routes/web.php:39-41 | the first GET route matching "/categories/tree" is `CategoryController@tree`, at position 2, with no parameters |
| WebRoutes.CategoriesTreeRoute | src/Routes/web.php:40-41 | GET /categories/tree is public and dispatches to `tree`, not to `show` with "tree", leaving the sessions alone |
| WebRoutes.PopularFirstMatch | src/Routes/web.php:57-59 | the first GET route matching "/tags/popular" is `TagController@show` at position 8 with the parameter "popular" |
| WebRoutes.TagsPopularShadowed | src/Routes/web.php:58-59 | GET /tags/popular is public and dispatches to `show` with "popular" |
| WebRoutes.PopularUnreachable | src/Routes/web.php:58-59 | no GET path whatever reaches the `popular` route |
| WebRoutes.ReadAllFirstMatch | src/Routes/web.php:67-68 | the first PUT route matching "/notifications/read-all" is `markAllAsRead`; "/notifications/{id}/read" needs a third segment |
| WebRoutes.ReadAllRoute | src/Routes/web.php:67-68 | an authenticated PUT /notifications/read-all dispatches to `markAllAsRead` without parameters |
| WebRoutes.PublicPosts | src/Routes/web.php:24-30 | POST login, register, request-reset and reset-password need no token |
| WebRoutes.GatedPosts | src/Routes/web.php:26-54 | POST logout, change-password, /categories, /items, /tags and every /items/{id}/like and /items/{id}/share need a token |
| WebRoutes.PublicGets | src/Routes/web.php:64-73 | GET /notifications, /users and every /users/{id} are public at the router despite the comments |
| WebRoutes.ItemsPathNotPublic | src/Core/Router.php:92-99 | no path under "/items/" is in the public list |
| AuthService.HashPassword | src/Services/AuthService.php:166 | the stored hash verifies the given password and no other |
| AuthService.LoginMatch | src/Services/AuthService.php:33-36 | a row matches the login query exactly when its username or its mail is the identifier |
| AuthService.FirstWhere | src/Services/AuthService.php:33-36 | fetch returns the first matching row: it matches and no earlier row does; None when no row matches |
| AuthService.Authenticate | src/Services/AuthService.php:30-45 | a record exactly when the first row with the identifier as username or mail verifies the password; it is that row without its password |
| AuthService.FirstMatchDecides | src/Services/AuthService.php:33-40 | when the first matching row's password fails, a later matching row is never tried |
| AuthService.GetUserById | src/Services/AuthService.php:297-305 | null exactly when no row has the id; otherwise the seven public columns of the SELECT, never the password |
| AuthService.CountWhere | src/Services/AuthService.php:189 | the number of rows the UPDATE matched, zero exactly when none has the value |
| AuthService.SetPasswordSpec | src/Services/AuthService.php:179-192 | each row with the id gets a hash verifying exactly the new password and a new updated_at, nothing else changes, other rows are kept |
| AuthService.SetPasswordKeepsLogins | src/Services/AuthService.php:179-192 | a password update does not change which rows a login identifier matches |
| AuthService.SetPasswordThenLogin | src/Services/AuthService.php:179-192 | after the update the new password logs in with the identifier and an old different one no longer does |
| AuthService.FirstLoginUnique | src/Services/AuthService.php:33-36 | the first row matching an identifier is unique |
| AuthService.NewColumnsSpec | src/Services/AuthService.php:163-170 | the inserted row has username and mail as given, permission_level defaulting to 0, both timestamps now, the new id and no password column |
| AuthService.RegisterOutcome | src/Services/AuthService.php:141-173 | corrected: null and no insert when a required field is empty or the username or mail is already any user's username or mail (the source compares only username with username and mail with mail, as RegisterAsWritten does); otherwise one row appended under the next id |
| AuthService.RegisterChecking | src/Services/AuthService.php:141-173 | register with the source's duplicate check or the corrected one: null leaves the users alone, an id is the next id and appends exactly one row |
| AuthService.InsertThenLogin | src/Services/AuthService.php:30-45 | after an insert whose username no user already holds, that username authenticates to the new row with the stored password and with no other |
| AuthService.RegisterStoresHash | src/Services/AuthService.php:163-170 | a successful register stores the hash, never the plaintext, and defaults permission_level to 0 |
| AuthService.NewRowIdentifiers | src/Services/AuthService.php:163-170 | a value identifying the new row is its username or its mail |
| AuthService.RegisterKeepsLoginsUnique | src/Services/AuthService.php:152-160 | with the corrected check, a successful register keeps every identifier naming one user |
| AuthService.RegisterThenLogin | src/Services/AuthService.php:141-173 | corrected register: a new user logs in with the username and password registered, or the mail, and gets the new row; no other password opens the username |
| AuthService.CrossIdentifierLockout | src/Services/AuthService.php:152-160 | as written, a user may register another user's mail as username and then cannot log in with it; the corrected check refuses the registration |
| AuthService.TokenPayloadSpec | src/Services/AuthService.php:50-66 | the payload has its eight claims in order, issued now, expiring `jwt.expires_in` later, user_id and email from id_user_pk and mail, permission_level defaulting to 0 |
| AuthService.CreatedSessionOpens | src/Services/AuthService.php:85-98 | createSession appends one row, after which the gate opens for that user and token and the session is valid until `ttl` seconds from now |
| AuthService.DestroyCloses | src/Services/AuthService.php:103-111 | after destroySession no row has the token, so the gate is closed for it, and a second call changes nothing |
| AuthService.DeleteByUserSpec | src/Services/AuthService.php:116-124 | destroyAllUserSessions removes exactly that user's rows |
| AuthService.ExpireSessionsSpec | src/Services/AuthService.php:273-280 | cleanExpiredSessions removes exactly the rows expired before now, keeping the validity of every token from now on |
| AuthService.Hex | src/Services/AuthService.php:208 | bin2hex gives two lowercase hexadecimal digits per byte |
| AuthService.HexRoundTrip | src/Services/AuthService.php:208 | the token text determines its random bytes: decoding the hex gives them back |
| AuthService.IssueReset | src/Services/AuthService.php:198-222 | null and no row exactly for an unknown mail; otherwise a 64-digit lowercase hex token stored for 3600 seconds |
| AuthService.ResetEmail | src/Services/AuthService.php:228-236 | the mail of a live row with the token, None exactly when no row with it is live |
| AuthService.IssuedTokenVerifies | src/Services/AuthService.php:198-236 | a freshly issued token verifies for the hour it lives, even when older rows exist |
| AuthService.DeleteResets | src/Services/AuthService.php:258 | the rows left are exactly those with another token |
| AuthService.PasswordUpdateNames | src/Services/AuthService.php:183-188 | the password UPDATE (columns password and updated_at, compared on id_user_pk or mail) is prepared exactly when its WHERE marker is named; as written, with `?`, PDO refuses it |
| AuthService.ResetOutcome | src/Services/AuthService.php:241-268 | with either WHERE marker: false and nothing changed when no live row has the token, and every failure changes nothing; a success leaves no row with the token; the users keep their number and stay free of password columns. As written (`mail = ?`) every reset fails, by ResetRefusedAsWritten |
| AuthService.ResetRefusedAsWritten | src/Services/AuthService.php:241-268 | as written the reset UPDATE (`mail = ?`) is refused, and every reset answers false with users and resets unchanged |
| AuthService.ResetSingleUse | src/Services/AuthService.php:241-268 | with either WHERE marker, a reset token works once: after a successful reset a second one with it fails, whatever the password and time |
| AuthService.ResetSetsPassword | src/Services/AuthService.php:248-255 | with either WHERE marker, after a successful reset (which only the corrected named marker allows) the user with the token's mail verifies exactly the new password |
| AuthService.ExpireResets | src/Services/AuthService.php:285-292 | cleanExpiredResetTokens keeps exactly the rows that expire at now or later |
| AuthService.ExpireResetsKeepsTokens | src/Services/AuthService.php:285-292 | cleaning never changes what a token verifies to from now on |
| AuthService.OverlayGet | src/Services/AuthService.php:319-321 | an updated key takes its new value, every other key keeps its old one |
| AuthService.ProfileOutcome | src/Services/AuthService.php:310-326 | with either WHERE marker: false and nothing changed when no field remains; true exactly when fields remain, PDO prepares the UPDATE with that marker, and some row has the id; the table keeps its length |
| AuthService.ProfileUpdateNames | src/Services/AuthService.php:310-324 | when the remaining fields are plain column names, the profile UPDATE as written (`id_user_pk = ?`) is refused once a field remains, and with a named WHERE marker it is prepared |
| AuthService.ProfileBinding | src/Services/AuthService.php:310-326 | as written, a profile update over plain column names fails and changes nothing; with the corrected named marker it succeeds exactly when a field remains and a row has the id |
| AuthService.ProfileSetKeys | src/Services/AuthService.php:314 | the update writes neither password, nor id_user_pk, nor created_at |
| AuthService.ProfileProtects | src/Services/AuthService.php:310-326 | with either WHERE marker, the password, id and creation time never change; other rows are unchanged; when fields remain and the UPDATE is prepared, the rows with the id get each remaining field |
| AuthService.ProfileKeepsValid | src/Services/AuthService.php:310-326 | with either WHERE marker, a profile update keeps the users table free of password columns |
| AuthService.AuthService.constructor | src/Services/AuthService.php:21-25 | the tables start empty and the ids at 1 |
| AuthService.AuthService.CreateSession | src/Services/AuthService.php:85-98 | false and no row when the insert raises; otherwise true and one row expiring `ttl` seconds from now; other tables unchanged |
| AuthService.AuthService.DestroySession | src/Services/AuthService.php:103-111 | true, and every row with the token removed |
| AuthService.AuthService.DestroyAllUserSessions | src/Services/AuthService.php:116-124 | true, and every row of the user removed |
| AuthService.AuthService.Register | src/Services/AuthService.php:141-173 | corrected: the loop and the checks give the id and the table of RegisterOutcome, whose duplicate check refuses any existing identifier |
| AuthService.AuthService.UpdatePassword | src/Services/AuthService.php:179-192 | as written (`id_user_pk = ?`, which PDO refuses): false and the users unchanged; with the corrected named marker: true exactly when a row has the id, and those rows get the new hash; the other tables never change |
| AuthService.AuthService.GeneratePasswordResetToken | src/Services/AuthService.php:198-222 | the token and reset rows of IssueReset |
| AuthService.AuthService.ResetPasswordWithToken | src/Services/AuthService.php:241-268 | the result and tables of ResetOutcome for the given WHERE marker, so as written every reset fails and changes nothing |
| AuthService.AuthService.CleanExpiredSessions | src/Services/AuthService.php:273-280 | the sessions of ExpireSessions, returning how many rows went |
| AuthService.AuthService.CleanExpiredResetTokens | src/Services/AuthService.php:285-292 | the reset rows of ExpireResets, returning how many went |
| AuthService.AuthService.UpdateUserProfile | src/Services/AuthService.php:310-326 | the result and users of ProfileOutcome for the given WHERE marker |
| AuthController.Present | src/Controllers/GenericAuthController.php:65 | a set string field other than "" and "0" passes validateRequired and is read as that string |
| AuthController.NoErrors | src/Controllers/GenericAuthController.php:65-68 | validateRequired reports nothing when every required field is present |
| AuthController.Login | src/Controllers/GenericAuthController.php:60-89 | 400 with one error per missing field; only sessions can change, and only with a 200 |
| AuthController.LoginAs | src/Controllers/GenericAuthController.php:71-89 | after validation only sessions can change, and only with a 200 |
| AuthController.OpenSession | src/Controllers/GenericAuthController.php:77-89 | a changed store means a 200 and exactly one session more |
| AuthController.LoginValidated | src/Controllers/GenericAuthController.php:65-71 | identifier and password given as strings reach authenticate with those strings |
| AuthController.LoginRefused | src/Controllers/GenericAuthController.php:71-74 | credentials that do not authenticate give 401 and change nothing |
| AuthController.OpenSessionSpec | src/Controllers/GenericAuthController.php:77-89 | a failing session insert gives 500 and no change; otherwise 200 with token and user, and the session row for that user and token |
| AuthController.LoginOpens | src/Controllers/GenericAuthController.php:71-82 | authenticated credentials lead to createSession for the authenticated row |
| AuthController.LoginThenAuthorized | src/Controllers/GenericAuthController.php:77-89 | the token login returns, sent as a bearer header, passes requireAuth; it passes the router gate too when `jwt.algorithm` is HS256 |
| AuthController.RawUserDataSpec | src/Controllers/GenericAuthController.php:142-147 | the array handed to sanitizeArray holds the request's username, email (as mail) and password |
| AuthController.UserDataSpec | src/Controllers/GenericAuthController.php:142-147 | the service sees username and mail sanitized; as written also the password sanitized, corrected the password as typed |
| AuthController.Register | src/Controllers/GenericAuthController.php:121-160 | corrected register (password hashed as typed, duplicate check over any identifier): 400 with one error per missing field; sessions and resets never change |
| AuthController.RegisterAsWritten | src/Controllers/GenericAuthController.php:121-160 | register as written (password sanitized, username compared only with usernames and mail with mails): 400 with one error per missing field; sessions and resets never change |
| AuthController.RegisterUsing | src/Controllers/GenericAuthController.php:126-129 | with either duplicate check, the validation step answers first, with one error per missing field |
| AuthController.RegisterChecked | src/Controllers/GenericAuthController.php:132-139 | with either duplicate check, the email and length checks never touch sessions or resets |
| AuthController.RegisterWith | src/Controllers/GenericAuthController.php:150-159 | the chosen duplicate check's null gives 400 and no change; an id gives 201 with it, that register's users and the next id |
| AuthController.RegisterValidated | src/Controllers/GenericAuthController.php:126-129 | the three fields given as strings pass validation |
| AuthController.RegisterChecksInOrder | src/Controllers/GenericAuthController.php:132-150 | an invalid email answers 400 first, then a short password 400, and only then the service is called |
| AuthController.RegisterCreated | src/Controllers/GenericAuthController.php:132-159 | with either duplicate check, a 201 means both checks passed and the service returned an id, whose users the store then holds |
| AuthController.RegisterThenLogin | src/Controllers/GenericAuthController.php:142-153 | after a corrected 201 the username authenticates with the password as typed and with no other |
| AuthController.SanitizedPasswordLockout | src/Controllers/GenericAuthController.php:142-147 | as written (sanitized password, like-with-like duplicate check), when the username is no existing user's username or mail, a password holding a character that sanitizing escapes cannot log in after a 201 |
| AuthController.Logout | src/Controllers/GenericAuthController.php:175-191 | a refused requireAuth answers with its own response |
| AuthController.LogoutCloses | src/Controllers/GenericAuthController.php:182-187 | after "Logout successful" the same header fails requireAuth and the router gate, whatever `jwt.algorithm` is |
| AuthController.Me | src/Controllers/GenericAuthController.php:210-220 | only requireAuth's session cleanup changes the store |
| AuthController.MeSpec | src/Controllers/GenericAuthController.php:213-219 | 404 exactly when no row has the token's id; a 200 carries that row's public columns, never the password |
| AuthController.CopiedSpec | src/Controllers/GenericAuthController.php:255-262 | the foreach fails exactly when a listed field holds an array; else it copies exactly the set listed fields, sanitized |
| AuthController.CopyFieldSpec | src/Controllers/GenericAuthController.php:259-261 | one turn of the foreach keeps the copy's description for one more field |
| AuthController.PutFieldKeys | src/Controllers/GenericAuthController.php:260 | copying a set field adds it to the copied keys |
| AuthController.PutFieldValues | src/Controllers/GenericAuthController.php:260 | copying a set field keeps every copied value its sanitized request value |
| AuthController.UpdateDataSpec | src/Controllers/GenericAuthController.php:255-268 | the update data holds only allowed fields, each exactly when set; mail when mail or email is set, email winning |
| AuthController.BuildUpdateData | src/Controllers/GenericAuthController.php:255-268 | the loop builds the update data UpdateDataSpec describes |
| AuthController.UpdateProfile | src/Controllers/GenericAuthController.php:244-280 | with either WHERE marker, a refused requireAuth answers first; only the users table changes, keeping its length |
| AuthController.ProfileFor | src/Controllers/GenericAuthController.php:250-279 | with either WHERE marker, after requireAuth only the users table changes, keeping its length |
| AuthController.ProfileWrite | src/Controllers/GenericAuthController.php:270-279 | nothing to write gives 400 and no change; otherwise the users of ProfileOutcome for the given WHERE marker, with 200 exactly when it reports success |
| AuthController.ProfileEndpointProtects | src/Controllers/GenericAuthController.php:244-280 | with either WHERE marker, whatever the request holds, passwords, ids and creation times stay, and other users' rows are untouched |
| AuthController.ProfileEmailWritten | src/Controllers/GenericAuthController.php:265-276 | with either WHERE marker, a 200 with an email puts that email, sanitized, in the user's mail column (as written no 200 comes, by ProfileAsWritten) |
| AuthController.ProfileWriteMail | src/Controllers/GenericAuthController.php:274 | corrected update binding: a write whose fields are plain column names and hold a mail puts that mail in the user's rows |
| AuthController.ProfileWriteAsWritten | src/Controllers/GenericAuthController.php:270-279 | as written, a write of plain column names answers 500 "Failed to update profile" and changes nothing |
| AuthController.ProfileForAsWritten | src/Controllers/GenericAuthController.php:250-279 | as written, after requireAuth the profile update never answers 200 and never changes the store |
| AuthController.ProfileAsWritten | src/Controllers/GenericAuthController.php:244-280 | as written, the users table never changes, and an authorized request never gets "Profile updated successfully" |
| AuthController.RequestPasswordReset | src/Controllers/GenericAuthController.php:301-326 | missing email gives 400 with its error; users and sessions never change |
| AuthController.ResetRequestValidated | src/Controllers/GenericAuthController.php:306-316 | a valid email string reaches generatePasswordResetToken |
| AuthController.ResetRequestHidesAccounts | src/Controllers/GenericAuthController.php:316-325 | the answer is the same 200 whatever the store holds; a reset row is added exactly when a user has the mail |
| AuthController.ResetRequestIssues | src/Controllers/GenericAuthController.php:316 | a request for a user's mail appends one live reset row with the hex token |
| AuthController.IssueForUser | src/Controllers/GenericAuthController.php:316 | the service issues the hex of the random bytes for a user's mail |
| AuthController.ResetPassword | src/Controllers/GenericAuthController.php:348-369 | with either WHERE marker, missing fields give 400; sessions never change; the store only changes with the 200 |
| AuthController.ResetWith | src/Controllers/GenericAuthController.php:363-368 | with either WHERE marker, the store only changes with "Password reset successful" |
| AuthController.ResetWithAsWritten | src/Controllers/GenericAuthController.php:363-368 | as written, every reset answers 400 "Invalid or expired reset token" and changes nothing |
| AuthController.ResetAsWritten | src/Controllers/GenericAuthController.php:348-369 | as written, the reset endpoint never answers 200 and never changes the store |
| AuthController.ResetValidated | src/Controllers/GenericAuthController.php:353-363 | token and a long enough password as strings reach the service |
| AuthController.ResetTokenSingleUse | src/Controllers/GenericAuthController.php:363-368 | with either WHERE marker, after a 200 the same request gets 400 and changes nothing |
| AuthController.ResetWithIssued | src/Controllers/GenericAuthController.php:363-368 | a live token for a user's mail: as written the answer is 400 "Invalid or expired reset token" and nothing changes; with the corrected named marker it is 200 and the user verifies the new password and no other |
| AuthController.ResetFlow | src/Controllers/GenericAuthController.php:301-369 | corrected update binding: requesting a reset and then using the token within the hour succeeds, and the user verifies the new password only |
| AuthController.ChangePassword | src/Controllers/GenericAuthController.php:393-427 | with either WHERE marker, a refused requireAuth answers first; the users table only changes with a 200 and keeps its length |
| AuthController.ChangeChecked | src/Controllers/GenericAuthController.php:405-426 | with either WHERE marker, after validation the users table only changes with a 200 |
| AuthController.SameRowFound | src/Controllers/GenericAuthController.php:410-416 | getUserById finds nothing exactly when the password query finds nothing |
| AuthController.ChangeValidated | src/Controllers/GenericAuthController.php:399-402 | both passwords as strings pass validation |
| AuthController.ChangeResponses | src/Controllers/GenericAuthController.php:410-423 | a wrong current password gives 401 and no change; a right one gives, as written, 500 "Failed to change password" and no change, and with the corrected named marker 200 with the user's rows holding the new hash |
| AuthController.ChangeCheckedAsWritten | src/Controllers/GenericAuthController.php:405-426 | as written, after validation the store never changes and "Password changed successfully" never comes |
| AuthController.ChangeAsWritten | src/Controllers/GenericAuthController.php:393-427 | as written, the users table never changes, and an authorized request never gets "Password changed successfully" |
| AuthController.ChangePasswordThenLogin | src/Controllers/GenericAuthController.php:417-423 | corrected update binding: after a 200 the user logs in with the new password and, when different, no longer with the current one |
| CategoryTree.Matching | src/Controllers/CategoryController.php:494-495 | the rows a call selects are exactly the rows whose parent loosely equals the parent id, never more than the table |
| CategoryTree.BuildCategoryTree | src/Controllers/CategoryController.php:490-502 | the recursive foreach returns the forest Tree describes, or runs out of its depth budget exactly when Tree does |
| CategoryTree.TreeChildren | src/Controllers/CategoryController.php:494-498 | a call that ends gives one node per matching row, in row order, each holding the subtree for that row's id |
| CategoryTree.LevelStaysNone | src/Controllers/CategoryController.php:494-499 | once one row's recursion fails, the rest of the foreach fails too |
| CategoryTree.LevelNone | src/Controllers/CategoryController.php:494-499 | the foreach fails exactly when the recursion for one of its matching rows does |
| CategoryTree.TreeNoneIffChain | src/Controllers/CategoryController.php:490-502 | the recursion exhausts a budget exactly when a parent chain as long as the budget hangs below the parent |
| CategoryTree.TreeMono | src/Controllers/CategoryController.php:490-502 | a recursion that ends within a budget gives the same forest on any larger budget |
| CategoryTree.TreeDepthBound | src/Controllers/CategoryController.php:490-502 | a recursion not ended within one level per row plus one never ends |
| CategoryTree.TreeSettles | src/Controllers/CategoryController.php:490-502 | whenever the recursion ends, one level per row plus one gives the same forest |
| CategoryTree.CycleNeverEnds | src/Controllers/CategoryController.php:496 | below a row on a parent cycle the recursion never ends, on any budget |
| CategoryTree.TreeMembers | src/Controllers/CategoryController.php:490-502 | when the recursion ends, a row is in the forest exactly when a parent chain leads down to it from the parent |
| CategoryTree.OrphanOmitted | src/Controllers/CategoryController.php:495 | a row whose parent is not null and is no row's id is in no tree built from the top |
| CategoryTree.CycleOmitted | src/Controllers/CategoryController.php:495-496 | a row on a parent cycle is never in a forest the recursion returns |
| CategoryTree.ExampleTree | src/Controllers/CategoryController.php:490-502 | rows 1 (root), 2 and 3 (under 1), 4 (under 2) give the tree 1[2[4], 3] |
| CategoryTree.ZeroIdNeverEnds | src/Controllers/CategoryController.php:495-496 | loose comparison makes parent 0 a root, and a row with id 0 and a null parent its own child, so the recursion never ends |
| CategoryController.IndexParamsSpec | src/Controllers/CategoryController.php:94-106 | the query parameters bind parent_id exactly for an equality filter, and search between two % exactly when a search is given |
| CategoryController.Selected | src/Controllers/CategoryController.php:91-108 | the listing returns rows of the table, in table order, each passing both filters |
| CategoryController.ParentFilterSpec | src/Controllers/CategoryController.php:87-101 | no parent_id keeps every row; '0' or 'null' keeps the NULL-parent rows; any other value keeps the rows whose parent equals it as an integer |
| CategoryController.SearchSpec | src/Controllers/CategoryController.php:103-106 | a search keeps exactly the rows whose name or description holds the text; a falsy one keeps every row |
| CategoryController.PageRows | src/Controllers/CategoryController.php:115-118 | LIMIT and OFFSET give the selected rows from the offset on, at most limit of them |
| CategoryController.DecodeRows | src/Controllers/CategoryController.php:121-123 | the by-reference foreach decodes every row's metadata and leaves the other columns |
| CategoryController.IndexPage | src/Controllers/CategoryController.php:85-137 | with a positive limit and page >= 1: 200 with the selected rows from (page - 1) * limit on, at most limit, and the pagination window |
| CategoryController.SearchMarkerTwice | src/Controllers/CategoryController.php:103-112 | with a search, the count query and the page query both hold the named marker `:search` at two places |
| CategoryController.SearchRefusedAsWritten | src/Controllers/CategoryController.php:103-140 | as written on the default MySQL connection (src/Core/Config.php:52, native prepares), a request gets the 500 exactly when its `search` is truthy, the queries then naming `:search` twice; any other request gets the listing |
| CategoryController.SearchedListing | src/Controllers/CategoryController.php:103-137 | corrected: a search with a positive limit and a page from 1 on answers 200 with the page of the selected rows, each of which holds the text in its name or description |
| CategoryController.IndexRefused | src/Controllers/CategoryController.php:115-140 | a negative limit or offset is a 500 from the database; a limit of 0 is the uncaught division error of ceil |
| CategoryController.FetchDecoded | src/Controllers/CategoryController.php:118-123 | fetchAll and the decoding foreach give the fetched rows in order, each with its metadata decoded and its other columns kept |
| CategoryController.FindById | src/Controllers/CategoryController.php:331 | the first row with the id; none exactly when no row has it |
| CategoryController.StoreRefusals | src/Controllers/CategoryController.php:239-250 | corrected slug check: missing name or slug gives a 400 listing them; a non-string slug a TypeError; a held sanitized slug a 400; the table stays as it was |
| CategoryController.NewRowSpec | src/Controllers/CategoryController.php:253-263 | the built row holds the sanitized name, slug and description (or null), the given or default parent_id, sort_order and is_active, the encoded metadata and now |
| CategoryController.NewRowId | src/Controllers/CategoryController.php:265 | the built row carries the id the insert gives it |
| CategoryController.StoreCreates | src/Controllers/CategoryController.php:253-271 | corrected slug check: valid fields with a free sanitized slug append the built row under the next id and answer 201 with it |
| CategoryController.StoreReachesInsert | src/Controllers/CategoryController.php:239-265 | corrected slug check: valid fields with a free sanitized slug come to the insert |
| CategoryController.InsertFree | src/Controllers/CategoryController.php:265-271 | a row whose slug is free is inserted |
| CategoryController.InsertHeld | src/Controllers/CategoryController.php:265-274 | an insert whose slug another row holds is refused with a 500 and uses up the next id, the rows unchanged |
| CategoryController.StoreNeverViolatesIndex | src/Controllers/CategoryController.php:246-265 | the corrected store answers 400 before any insert the unique slug index would refuse |
| CategoryController.StoreRawSlugCheck | src/Controllers/CategoryController.php:246-255 | as written, a slug free as sent but held once sanitized passes the check, and the insert fails with a 500 that uses up the next id |
| CategoryController.LeadingSpaceSlug | src/Controllers/CategoryController.php:255 | a slug with a leading space is stored without it |
| CategoryController.RawSlugExample | src/Controllers/CategoryController.php:246-274 | with a stored slug "a", a store of slug " a" gets a 500 as written (the next id used up) and a 400 corrected |
| CategoryController.StoreKeepsTable | src/Controllers/CategoryController.php:230-276 | both forms of store keep the primary key and the unique slug index |
| CategoryController.UpdateFoldSpec | src/Controllers/CategoryController.php:352-363 | the foreach raises a TypeError exactly when a set text field is not a string; else it holds updated_at and exactly the set fields, each copied |
| CategoryController.CopyFieldSpec | src/Controllers/CategoryController.php:356-362 | one turn of the foreach keeps the description of the copied fields |
| CategoryController.UpdateDataSpec | src/Controllers/CategoryController.php:352-367 | the update data: updated_at, the set allowed fields copied, the metadata encoded when set |
| CategoryController.BuildUpdateData | src/Controllers/CategoryController.php:352-367 | the loop builds the update data UpdateDataSpec describes |
| CategoryController.UpdateFoldNone | src/Controllers/CategoryController.php:355-363 | once a turn raises the TypeError the whole foreach does |
| CategoryController.UpdateRows | src/Controllers/CategoryController.php:369 | the statement keeps the table's length |
| CategoryController.UpdateRefusals | src/Controllers/CategoryController.php:331-348 | corrected slug check: an unknown id gives 404; a non-string slug a TypeError; a sanitized slug another row holds a 400; the table stays as it was |
| CategoryController.UpdateReachesApply | src/Controllers/CategoryController.php:331-369 | corrected slug check and update binding: past its checks, update comes to the statement with a named WHERE marker |
| CategoryController.WrittenSlug | src/Controllers/CategoryController.php:340-358 | the update data never writes a slug the corrected check did not look up |
| CategoryController.UpdateWrites | src/Controllers/CategoryController.php:352-375 | corrected slug check and update binding: a known id with a passing slug check answers 200 with the updated row; other rows are unchanged |
| CategoryController.UpdatedColumn | src/Controllers/CategoryController.php:356-361 | an allowed column is in the update data exactly when the field is set, holding the copied value |
| CategoryController.CopiedText | src/Controllers/CategoryController.php:358 | a text field that passed the foreach holds its sanitized string |
| CategoryController.UpdatedText | src/Controllers/CategoryController.php:355-369 | each set text column becomes the sanitized string; unset ones keep their value |
| CategoryController.UpdatedOthers | src/Controllers/CategoryController.php:352-369 | parent_id, sort_order and is_active are copied when set and kept otherwise; metadata encoded; updated_at now; id and created_at never change |
| CategoryController.UpdateNeverViolatesIndex | src/Controllers/CategoryController.php:340-369 | corrected slug check and update binding: the corrected update answers 400 before any statement the unique slug index would refuse, so it never gives the 500 |
| CategoryController.UpdateRawSlugCheck | src/Controllers/CategoryController.php:340-358 | as written, a slug free as sent but held by another row once sanitized reaches the statement and fails with a 500, where the corrected update answers 400 |
| CategoryController.UpdateBinding | src/Controllers/CategoryController.php:352-369 | for every update data, the category UPDATE as written (`id = ?`) is refused, and with a named WHERE marker it is prepared |
| CategoryController.UpdateRefusedAsWritten | src/Controllers/CategoryController.php:324-380 | as written, update never changes the table, and a known id whose data passes the raw slug check answers 500 "Failed to update category: …" |
| CategoryController.UpdateKeepsTable | src/Controllers/CategoryController.php:324-380 | both forms of update keep the primary key and the unique slug index |
| CategoryController.UpdateTables | src/Controllers/CategoryController.php:324-380 | update, as written and corrected, leaves the table as it was or as its statement, with that form's WHERE marker, left it |
| CategoryController.DeleteWhere | src/Controllers/CategoryController.php:424-427 | a DELETE keeps exactly the rows the condition does not hit, in order |
| CategoryController.DestroySpec | src/Controllers/CategoryController.php:410-429 | an unknown id gives 404 and no change; else 200 with an empty list, keeping exactly the rows that are neither the category nor its children |
| CategoryController.DestroyKeepsGrandchildren | src/Controllers/CategoryController.php:424-427 | only one level goes: a grandchild survives while its parent, the child, does not |
| CategoryController.DestroyKeepsTable | src/Controllers/CategoryController.php:410-434 | destroy keeps the primary key and the unique slug index |
| CategoryController.TreeAnswer | src/Controllers/CategoryController.php:470-487 | whatever budget lets the recursion from the roots end, tree answers 200 with that forest |
| CategoryController.TreeEndless | src/Controllers/CategoryController.php:470-487 | tree fails exactly when the recursion from the roots never ends on any budget |
| CategoryController.EndlessAtBudget | src/Controllers/CategoryController.php:490-502 | the budget of one level per row plus one fails exactly when every budget does |
| CategoryController.Categories.constructor | database/migrations/20250713200100_create_categories_table.php:12-30 | an empty table whose first id is 1, with the given sessions |
| CategoryController.Categories.Index | src/Controllers/CategoryController.php:82-142 | corrected search binding: the answer is the listing of the query over the table; the table is only read |
| CategoryController.Categories.Tree | src/Controllers/CategoryController.php:470-487 | the answer is the tree endpoint's answer over the table; the table is only read |
| CategoryController.Categories.Store | src/Controllers/CategoryController.php:230-276 | corrected slug check: requireAuth, then the table and answer the store rules give; the constraints hold after |
| CategoryController.Categories.Create | src/Controllers/CategoryController.php:236-275 | corrected slug check: the table and answer the store rules give |
| CategoryController.Categories.Insert | src/Controllers/CategoryController.php:265-271 | the answer and table of StoreInsert: the insert and the fetch of the new row; a refused insert answers 500 and still uses up the next id |
| CategoryController.Categories.Update | src/Controllers/CategoryController.php:324-380 | corrected slug check and update binding: requireAuth, then the table and answer the update rules give; the constraints hold after |
| CategoryController.Categories.Revise | src/Controllers/CategoryController.php:329-379 | corrected slug check and update binding: the table and answer the update rules give |
| CategoryController.Categories.Apply | src/Controllers/CategoryController.php:352-375 | the answer and table of UpdateApply for the given WHERE marker: 500 and no change when PDO refuses the UPDATE (as written, `id = ?`), otherwise the update data, the statement and the fetch |
| CategoryController.Categories.Destroy | src/Controllers/CategoryController.php:410-434 | requireAuth, then the two deletes; the constraints hold after |

## Left out

- The closure handlers for `/health` and `/info` (src/Routes/web.php:111-136): the dispatcher only handles `Class@method` strings, so the route table holds only those.
- Dynamic instantiation of the controller class and the `int` coercion of captured segments into handler arguments: dispatch returns the handler and the captured segments.
- Request and response I/O (`getallheaders`, `$_SERVER`, `$_GET`, `php://input`, `header`, `echo`, `exit`) becomes inputs and returned values. `getRequestData`, `handleFileUpload` and the `error_log` of `logActivity` are not modelled.
- The JWT library (signing, signature checks, expiry) is a decoder parameter, and `JWT::encode` is an encoder parameter. AuthService::verifyToken is that decoder. The decoder is given the key as a secret and an algorithm: requireAuth and AuthService use `jwt.secret` and `jwt.algorithm`, while the router's gate always uses HS256 (src/Core/Router.php:141). The router reads `$_ENV['JWT_SECRET']` and requireAuth reads `jwt.secret`; the model takes these to be the same secret.
- Compile, Match (Router.Compile, Router.Match): the pattern is the route text inside `#^…$#`, and the model reads every character outside a placeholder literally. PCRE would give a meaning to `.`, `+`, `*`, `?`, `(`, `)`, `[`, `]`, `{` without a placeholder, `|`, `\`, `^` and `$`, and a `#` would end the pattern. No route in web.php holds any of these, so the web.php lemmas hold as stated.
- LiteralRouteMatch (Router.LiteralRouteMatch): stated for any route text, it holds for PHP only when the literal parts of the routes hold none of those regex metacharacters, as every web.php route does.
- LiteralListMatch (RouterProperties.LiteralListMatch): stated for any route text, it holds for PHP only when the literal parts of the routes hold none of those regex metacharacters, as every web.php route does.
- RoutePrefix (RouterProperties.RoutePrefix): stated for any route text, it holds for PHP only when the literal parts of the routes hold none of those regex metacharacters, as every web.php route does.
- PrefixMiss (RouterProperties.PrefixMiss): stated for any route text, it holds for PHP only when the literal parts of the routes hold none of those regex metacharacters, as every web.php route does.
- ParamRouteMatch (RouterProperties.ParamRouteMatch): stated for any route text, it holds for PHP only when the literal parts of the routes hold none of those regex metacharacters, as every web.php route does.
- ParamRouteMissSuffix (RouterProperties.ParamRouteMissSuffix): stated for any route text, it holds for PHP only when the literal parts of the routes hold none of those regex metacharacters, as every web.php route does.
- ParamRouteHit (RouterProperties.ParamRouteHit): stated for any route text, it holds for PHP only when the literal parts of the routes hold none of those regex metacharacters, as every web.php route does.
- ParamCoversLiteral (RouterProperties.ParamCoversLiteral): stated for any route text, it holds for PHP only when the literal parts of the routes hold none of those regex metacharacters, as every web.php route does.
- ShadowedRoute (RouterProperties.ShadowedRoute): stated for any route text, it holds for PHP only when the literal parts of the routes hold none of those regex metacharacters, as every web.php route does.
- LiteralMiss (WebRoutes.LiteralMiss): stated for any route text, it holds for PHP only when the literal parts of the routes hold none of those regex metacharacters, as every web.php route does.
- LeadingInt, IntCast: `(int)` of a string reads only leading whitespace, a sign and digits. PHP 7.1 and later also read a decimal or exponent form, so `(int)"1e3"` is 1000 where the model gives 1. Integers are unbounded, while PHP saturates the cast at PHP_INT_MAX.
- IndexPage, IndexRefused (CategoryController.IndexPage, CategoryController.IndexRefused): `($page - 1) * $limit` is unbounded here. In PHP a product beyond PHP_INT_MAX becomes a float, and MySQL refuses the OFFSET with a 500, where the model answers 200 with an empty page.
- AllowOriginSpec (Cors.AllowOriginSpec): compares the request origin with the entries strictly. initCors uses a loose `in_array` (src/Core/Cors.php:23), and PHP 8 compares two numeric strings by value, so with an entry `1e1` the source also echoes an origin `10`. A real Origin header, a scheme and a host, is never a numeric string.
- AllowOriginEmitted (Cors.AllowOriginEmitted): compares the request origin with the entries strictly. initCors uses a loose `in_array` (src/Core/Cors.php:23), and PHP 8 compares two numeric strings by value, so with an entry `1e1` the source also echoes an origin `10`. A real Origin header, a scheme and a host, is never a numeric string.
- OnlyFirstOrigin (Cors.OnlyFirstOrigin): compares the request origin with the entries strictly. initCors uses a loose `in_array` (src/Core/Cors.php:23), and PHP 8 compares two numeric strings by value, so with an entry `1e1` the source also echoes an origin `10`. A real Origin header, a scheme and a host, is never a numeric string.
- SingleOrigin (Cors.SingleOrigin): compares the request origin with the entries strictly. initCors uses a loose `in_array` (src/Core/Cors.php:23), and PHP 8 compares two numeric strings by value, so with an entry `1e1` the source also echoes an origin `10`. A real Origin header, a scheme and a host, is never a numeric string.
- Index (CategoryController.Categories.Index): answers a searched listing as intended, with the matching rows. As written, the search condition names `:search` twice, which the native prepares of the default MySQL connection refuse, so every search gets a 500 (IndexAsWritten, SearchRefusedAsWritten; see Findings).
- RegisterOutcome (AuthService.RegisterOutcome): follows the corrected duplicate check, which refuses a username or mail that any user already holds as username or mail. The source compares only username with username and mail with mail (AuthService.RegisterAsWritten), so for a user alice with mail `a@x.io` it accepts a new username `a@x.io` that this member refuses.
- RegisterThenLogin (AuthService.RegisterThenLogin): follows the corrected duplicate check, which refuses a username or mail that any user already holds as username or mail. The source compares only username with username and mail with mail (AuthService.RegisterAsWritten), so for a user alice with mail `a@x.io` it accepts a new username `a@x.io` that this member refuses.
- Register (AuthService.AuthService.Register): follows the corrected duplicate check, which refuses a username or mail that any user already holds as username or mail. The source compares only username with username and mail with mail (AuthService.RegisterAsWritten), so for a user alice with mail `a@x.io` it accepts a new username `a@x.io` that this member refuses.
- StoreRefusals (CategoryController.StoreRefusals): follows the corrected slug check, which looks up the sanitized slug that is stored. The source looks up the slug as sent (CategoryController.StoreRawSlugCheck), so the two differ when only one of the sent and the sanitized slug is held: with a stored slug `a`, a slug ` a` gets a 500 from the unique index where this member answers 400; with a stored slug `a&amp;b`, the same slug sent gets a 400 where this member checks and stores `a&amp;amp;b`. It also sanitizes the slug before the lookup, so a slug that is not a string is the TypeError here even where the source's raw lookup answers 400 first.
- StoreCreates (CategoryController.StoreCreates): follows the corrected slug check, which looks up the sanitized slug that is stored. The source looks up the slug as sent (CategoryController.StoreRawSlugCheck), so the two differ when only one of the sent and the sanitized slug is held: with a stored slug `a`, a slug ` a` gets a 500 from the unique index where this member answers 400; with a stored slug `a&amp;b`, the same slug sent gets a 400 where this member checks and stores `a&amp;amp;b`. It also sanitizes the slug before the lookup, so a slug that is not a string is the TypeError here even where the source's raw lookup answers 400 first.
- StoreReachesInsert (CategoryController.StoreReachesInsert): follows the corrected slug check, which looks up the sanitized slug that is stored. The source looks up the slug as sent (CategoryController.StoreRawSlugCheck), so the two differ when only one of the sent and the sanitized slug is held: with a stored slug `a`, a slug ` a` gets a 500 from the unique index where this member answers 400; with a stored slug `a&amp;b`, the same slug sent gets a 400 where this member checks and stores `a&amp;amp;b`. It also sanitizes the slug before the lookup, so a slug that is not a string is the TypeError here even where the source's raw lookup answers 400 first.
- Store (CategoryController.Categories.Store): follows the corrected slug check, which looks up the sanitized slug that is stored. The source looks up the slug as sent (CategoryController.StoreRawSlugCheck), so the two differ when only one of the sent and the sanitized slug is held: with a stored slug `a`, a slug ` a` gets a 500 from the unique index where this member answers 400; with a stored slug `a&amp;b`, the same slug sent gets a 400 where this member checks and stores `a&amp;amp;b`. It also sanitizes the slug before the lookup, so a slug that is not a string is the TypeError here even where the source's raw lookup answers 400 first.
- Create (CategoryController.Categories.Create): follows the corrected slug check, which looks up the sanitized slug that is stored. The source looks up the slug as sent (CategoryController.StoreRawSlugCheck), so the two differ when only one of the sent and the sanitized slug is held: with a stored slug `a`, a slug ` a` gets a 500 from the unique index where this member answers 400; with a stored slug `a&amp;b`, the same slug sent gets a 400 where this member checks and stores `a&amp;amp;b`. It also sanitizes the slug before the lookup, so a slug that is not a string is the TypeError here even where the source's raw lookup answers 400 first.
- UpdateRefusals (CategoryController.UpdateRefusals): follows the corrected slug check, which looks up the sanitized slug that is stored. The source looks up the slug as sent (CategoryController.UpdateRawSlugCheck), so the two differ when only one of the sent and the sanitized slug is held: with a stored slug `a`, a slug ` a` gets a 500 from the unique index where this member answers 400; with a stored slug `a&amp;b`, the same slug sent gets a 400 where this member checks and stores `a&amp;amp;b`. It also sanitizes the slug before the lookup, so a slug that is not a string is the TypeError here even where the source's raw lookup answers 400 first.
- UpdateReachesApply (CategoryController.UpdateReachesApply): follows the corrected slug check, which looks up the sanitized slug that is stored. The source looks up the slug as sent (CategoryController.UpdateRawSlugCheck), so the two differ when only one of the sent and the sanitized slug is held: with a stored slug `a`, a slug ` a` gets a 500 from the unique index where this member answers 400; with a stored slug `a&amp;b`, the same slug sent gets a 400 where this member checks and stores `a&amp;amp;b`. It also sanitizes the slug before the lookup, so a slug that is not a string is the TypeError here even where the source's raw lookup answers 400 first. It also follows the corrected update binding, a named WHERE marker: as written the statement says `id = ?`, PDO refuses it, and every update that reaches it answers 500 with the table unchanged (CategoryController.UpdateRefusedAsWritten).
- UpdateWrites (CategoryController.UpdateWrites): follows the corrected slug check, which looks up the sanitized slug that is stored. The source looks up the slug as sent (CategoryController.UpdateRawSlugCheck), so the two differ when only one of the sent and the sanitized slug is held: with a stored slug `a`, a slug ` a` gets a 500 from the unique index where this member answers 400; with a stored slug `a&amp;b`, the same slug sent gets a 400 where this member checks and stores `a&amp;amp;b`. It also sanitizes the slug before the lookup, so a slug that is not a string is the TypeError here even where the source's raw lookup answers 400 first. It also follows the corrected update binding, a named WHERE marker: as written the statement says `id = ?`, PDO refuses it, and every update that reaches it answers 500 with the table unchanged (CategoryController.UpdateRefusedAsWritten).
- Update (CategoryController.Categories.Update): follows the corrected slug check, which looks up the sanitized slug that is stored. The source looks up the slug as sent (CategoryController.UpdateRawSlugCheck), so the two differ when only one of the sent and the sanitized slug is held: with a stored slug `a`, a slug ` a` gets a 500 from the unique index where this member answers 400; with a stored slug `a&amp;b`, the same slug sent gets a 400 where this member checks and stores `a&amp;amp;b`. It also sanitizes the slug before the lookup, so a slug that is not a string is the TypeError here even where the source's raw lookup answers 400 first. It also follows the corrected update binding, a named WHERE marker: as written the statement says `id = ?`, PDO refuses it, and every update that reaches it answers 500 with the table unchanged (CategoryController.UpdateRefusedAsWritten).
- Revise (CategoryController.Categories.Revise): follows the corrected slug check, which looks up the sanitized slug that is stored. The source looks up the slug as sent (CategoryController.UpdateRawSlugCheck), so the two differ when only one of the sent and the sanitized slug is held: with a stored slug `a`, a slug ` a` gets a 500 from the unique index where this member answers 400; with a stored slug `a&amp;b`, the same slug sent gets a 400 where this member checks and stores `a&amp;amp;b`. It also sanitizes the slug before the lookup, so a slug that is not a string is the TypeError here even where the source's raw lookup answers 400 first. It also follows the corrected update binding, a named WHERE marker: as written the statement says `id = ?`, PDO refuses it, and every update that reaches it answers 500 with the table unchanged (CategoryController.UpdateRefusedAsWritten).
- UpdateNeverViolatesIndex (CategoryController.UpdateNeverViolatesIndex): follows the corrected update binding, a named WHERE marker. As written the statement says `id = ?`, PDO refuses it, and every update that reaches it answers 500 (CategoryController.UpdateRefusedAsWritten).
- ProfileWriteMail (AuthController.ProfileWriteMail): follows the corrected update binding, a named WHERE marker. As written the service's `id_user_pk = ?` is refused and the write answers 500 with nothing changed (AuthController.ProfileWriteAsWritten).
- ResetFlow (AuthController.ResetFlow): follows the corrected update binding, a named WHERE marker. As written the service's `mail = ?` is refused, and the reset answers 400 and keeps the token (AuthController.ResetWithAsWritten).
- ChangePasswordThenLogin (AuthController.ChangePasswordThenLogin): follows the corrected update binding, a named WHERE marker. As written the service's `id_user_pk = ?` is refused, and the change answers 500 with nothing changed (AuthController.ChangeResponses).
- `password_hash`/`password_verify` are idealised as an injective salted tag with exact verification. `random_bytes`, `time()` and `date()` are parameters: timestamps are integer seconds, and the date formatting is not modelled.
- `strip_tags`, `filter_var(FILTER_VALIDATE_EMAIL)`, `json_encode` and `json_decode` are uninterpreted function parameters.
- `htmlspecialchars` is modelled on characters. `strlen` is taken as the number of characters; the source counts bytes, and the two differ for non-ASCII passwords.
- Floats: `ceil($total / $limit)` for `last_page` is integer ceiling division. A limit of 0 is the uncaught DivisionByZeroError.
- Executing SQL: tables are in-memory sequences of rows in insertion order, and a query without `ORDER BY` returns rows in that order. Also not modelled:
  - `ORDER BY sort_order, name` in the category listing; the table is taken as already in that order;
  - `LIKE` wildcards inside the search text;
  - column types beyond integer comparison and MySQL's reading of a string as its leading integer;
  - collations;
  - `COUNT(*)` being returned as a string.
- Database failures are modelled only where the code reacts to them:
  - the session insert of login;
  - the unique slug index of `categories`;
  - the negative LIMIT/OFFSET MySQL refuses.
  - the UPDATE of Database::update, which PDO refuses whenever the caller's WHERE uses `?` (see Findings); as written this gives the 500 of updateProfile, changePassword and the category update, and the 400 of resetPassword, on every request that reaches the statement.
  Other statements are taken to succeed, so with the corrected named WHERE marker the 500s of updateProfile and changePassword happen only when no row was updated.
- The foreign key of `categories.parent_id` (the existence check and `ON DELETE SET NULL`) belongs to the database engine and is not modelled. destroy deletes exactly the rows the two statements hit.
- `connect`, `transaction`, the singletons, and the sqlite and pgsql forms of `LIMIT`.
- Database.UpdatePrepares: PDO's refusal of a statement that mixes named and `?` markers is modelled on the text. A text holding a quote is taken to be prepared, because the scanner does not follow SQL string literals; no UPDATE the modelled code builds holds one. The refusal is applied whatever the driver; whether the sqlite driver refuses too is not modelled.
- CategoryController::show is not part of this model. Only its row lookup is modelled (FindById), because update and destroy use the same query.
- The fetch that follows an insert or an update is modelled as returning the row just written.
- Sessions and password resets follow the columns AuthService writes. The migrations declare other columns (`login_date` and no `expires_at` in sessions; `id_user_fk` and no `email` in password_resets), and those schema mismatches are not modelled.
- Migrations and seeders are not modelled, apart from the categories primary key and unique slug index, which CategoryController.TableOk states.
- public/index.php is bootstrap wiring. Only its choice of the first configured origin for CORS is modelled.
- Cors::corsOptions (src/Core/Cors.php:7-16) is not part of this model. Nothing in the modelled code calls it.
- WebRoutes: web.php is a straight-line sequence of registration calls. It is modelled as the list of those calls folded by Load, which Router.Register's contract connects to the class.
- CategoryTree.BuildCategoryTree: the unguarded recursion is given the depth budget |rows| + 1. TreeDepthBound and TreeSettles show that this budget gives PHP's result whenever PHP's recursion ends. Running out of budget is reported as the Fatal stack overflow that PHP would hit.
- isSessionValid is the predicate AuthService.SessionValid. The session lemmas state their results with it; it has no contract of its own.
- Concurrency: requests are taken one at a time.
- CategoryController.UpdateRows: its own contract states only that the table keeps its length. What it writes is stated by UpdateWrites, UpdatedText and UpdatedOthers.

## Findings

| source | as written | input that shows it | evidently intended | confidence | as-written member | corrected member |
|---|---|---|---|---|---|---|
| src/Controllers/GenericAuthController.php:142-147 | register runs the password through sanitizeArray (trim, strip_tags, htmlspecialchars) before hashing, while login verifies the password as typed | the password `Tom&Jerry` is stored as the hash of `Tom&amp;Jerry`, and logging in with `Tom&Jerry` then gives 401 | hash the password as typed and sanitise only the other fields | not executed | AuthController.SanitizedPasswordLockout | AuthController.RegisterThenLogin |
| src/Services/AuthService.php:152-160 | the duplicate check compares the new username only with usernames and the new mail only with mails | for a user alice with mail `a@x.io`, a new user whose username is `a@x.io` is accepted, and can never log in with that username because the login query finds alice first | reject a new identifier that matches any existing username or mail | not executed | AuthService.CrossIdentifierLockout | AuthService.RegisterKeepsLoginsUnique |
| src/Controllers/CategoryController.php:103-106 | the search condition binds the named marker `:search` twice, while the connection turns emulated prepares off (src/Core/Config.php:52), and a native prepare refuses a named marker used twice | on the default MySQL connection, `GET /categories?search=a` fails at the count query and answers 500 "Failed to retrieve categories: …" | bind the search under two distinct markers, and answer 200 with the matching rows | not executed; rests on PDO's documented refusal of a repeated named marker without emulation | CategoryController.SearchRefusedAsWritten | CategoryController.SearchedListing |
| src/Controllers/CategoryController.php:246-255 | the uniqueness check looks up the raw request slug, but the stored slug is the sanitized one; update does the same (lines 340-358) | with a stored slug `a`, a store request with slug ` a` passes the check, and the insert of `a` is refused by the unique index (a 500) | check the slug that will be stored, and answer 400 | not executed; for update the half that reaches the statement is also refused by the binding row below | CategoryController.RawSlugExample | CategoryController.StoreNeverViolatesIndex |
| src/Core/Database.php:125-138 | update builds the SET clause from named markers `c = :c` and appends the caller's WHERE, and every caller writes that WHERE with `?` (AuthService lines 186, 254 and 322, CategoryController.php line 369); PDO refuses a statement mixing named and positional markers | changePassword with the right current password builds `UPDATE users SET password = :password, updated_at = :updated_at WHERE id_user_pk = ?`; the prepare raises, updatePassword returns false and the answer is 500; likewise every profile update (500), password reset (400, token kept) and category update (500) | bind the WHERE value under a named marker of its own, and update the rows | not executed; rests on PDO's documented refusal of mixed named and positional markers | Database.PositionalRefused | Database.NamedPrepares |
