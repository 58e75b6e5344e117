/**
 * src/Routes/web.php: the routes the application registers, section by
 * section, each a call `$router->get/post/put/delete(uri, "Class@method")`.
 *
 * The file is modelled as the list of those calls in file order. Running it
 * on a fresh router gives the table `Load(map[], Web)`: each call is
 * Router.Register, whose contract is AddRoute, so the table is the fold of
 * AddRoute over the list.
 */
module WebRoutes {
  import opened Php
  import opened Http
  import opened Router
  import opened RouterProperties

  datatype Registration = Registration(verb: string, uri: string, controller: string)

  const AuthRoutes: seq<Registration> := [
    Registration("POST", "/auth/login", "GenericAuthController@login"),
    Registration("POST", "/auth/register", "GenericAuthController@register"),
    Registration("POST", "/auth/logout", "GenericAuthController@logout"),
    Registration("GET", "/auth/me", "GenericAuthController@me"),
    Registration("PUT", "/auth/profile", "GenericAuthController@updateProfile"),
    Registration("POST", "/auth/request-reset", "GenericAuthController@requestPasswordReset"),
    Registration("POST", "/auth/reset-password", "GenericAuthController@resetPassword"),
    Registration("POST", "/auth/change-password", "GenericAuthController@changePassword")
  ]

  const CategoryRoutes: seq<Registration> := [
    Registration("GET", "/categories", "CategoryController@index"),
    Registration("GET", "/categories/tree", "CategoryController@tree"),
    Registration("GET", "/categories/{id}", "CategoryController@show"),
    Registration("POST", "/categories", "CategoryController@store"),
    Registration("PUT", "/categories/{id}", "CategoryController@update"),
    Registration("DELETE", "/categories/{id}", "CategoryController@destroy")
  ]

  const ItemRoutes: seq<Registration> := [
    Registration("GET", "/items", "ItemController@index"),
    Registration("GET", "/items/{id}", "ItemController@show"),
    Registration("GET", "/items/{id}/related", "ItemController@related"),
    Registration("POST", "/items", "ItemController@store"),
    Registration("PUT", "/items/{id}", "ItemController@update"),
    Registration("DELETE", "/items/{id}", "ItemController@destroy"),
    Registration("POST", "/items/{id}/like", "ItemController@like"),
    Registration("POST", "/items/{id}/share", "ItemController@share")
  ]

  const TagRoutes: seq<Registration> := [
    Registration("GET", "/tags", "TagController@index"),
    Registration("GET", "/tags/{id}", "TagController@show"),
    Registration("GET", "/tags/popular", "TagController@popular"),
    Registration("POST", "/tags", "TagController@store"),
    Registration("PUT", "/tags/{id}", "TagController@update"),
    Registration("DELETE", "/tags/{id}", "TagController@destroy")
  ]

  const NotificationRoutes: seq<Registration> := [
    Registration("GET", "/notifications", "NotificationController@index"),
    Registration("GET", "/notifications/{id}", "NotificationController@show"),
    Registration("PUT", "/notifications/{id}/read", "NotificationController@markAsRead"),
    Registration("PUT", "/notifications/read-all", "NotificationController@markAllAsRead"),
    Registration("DELETE", "/notifications/{id}", "NotificationController@destroy")
  ]

  const UserRoutes: seq<Registration> := [
    Registration("GET", "/users", "UserController@index"),
    Registration("GET", "/users/{id}", "UserController@show"),
    Registration("PUT", "/users/{id}", "UserController@update"),
    Registration("DELETE", "/users/{id}", "UserController@destroy"),
    Registration("PUT", "/users/{id}/activate", "UserController@activate"),
    Registration("PUT", "/users/{id}/deactivate", "UserController@deactivate")
  ]

  const Web: seq<Registration> :=
    AuthRoutes + CategoryRoutes + ItemRoutes + TagRoutes + NotificationRoutes + UserRoutes

  /** The table after registering `regs`, in order, on top of `routes`. */
  function Load(routes: map<string, Table>, regs: seq<Registration>): map<string, Table>
    decreases |regs|
  {
    if regs == [] then routes
    else
      var last := regs[|regs| - 1];
      AddRoute(Load(routes, regs[..|regs| - 1]), last.verb, last.uri, last.controller)
  }

  /** The paths registered for method `m`, in order. */
  function UrisOf(regs: seq<Registration>, m: string): seq<string>
    decreases |regs|
  {
    if regs == [] then []
    else (if regs[0].verb == m then [regs[0].uri] else []) + UrisOf(regs[1..], m)
  }

  /** The handlers registered for method `m`, in order. */
  function HandlersOf(regs: seq<Registration>, m: string): seq<string>
    decreases |regs|
  {
    if regs == [] then []
    else (if regs[0].verb == m then [regs[0].controller] else []) + HandlersOf(regs[1..], m)
  }

  lemma {:induction false} UrisOfAppend(a: seq<Registration>, b: seq<Registration>, m: string)
    ensures UrisOf(a + b, m) == UrisOf(a, m) + UrisOf(b, m)
    ensures HandlersOf(a + b, m) == HandlersOf(a, m) + HandlersOf(b, m)
    decreases |a|
  {
    if a == [] {
      assert a + b == b;
    } else {
      var ab := a + b;
      assert ab[0] == a[0] && ab[1..] == a[1..] + b;
      UrisOfAppend(a[1..], b, m);
      var u := if a[0].verb == m then [a[0].uri] else [];
      var h := if a[0].verb == m then [a[0].controller] else [];
      assert UrisOf(ab, m) == u + UrisOf(a[1..] + b, m);
      assert HandlersOf(ab, m) == h + HandlersOf(a[1..] + b, m);
      assert u + (UrisOf(a[1..], m) + UrisOf(b, m)) == (u + UrisOf(a[1..], m)) + UrisOf(b, m);
      assert h + (HandlersOf(a[1..], m) + HandlersOf(b, m)) == (h + HandlersOf(a[1..], m)) + HandlersOf(b, m);
    }
  }

  /** Adding a path the method does not have yet appends it, with its handler, at the end. */
  lemma AddFresh(routes: map<string, Table>, m: string, uri: string, c: string)
    requires TablesWf(routes) && uri !in TableOf(routes, m).keys
    ensures TablesWf(AddRoute(routes, m, uri, c))
    ensures TableOf(AddRoute(routes, m, uri, c), m).keys == TableOf(routes, m).keys + [uri]
    ensures ValuesInOrder(TableOf(AddRoute(routes, m, uri, c), m)) == ValuesInOrder(TableOf(routes, m)) + [c]
  {
    RegisterSpec(routes, m, uri, c);
    var a := TableOf(routes, m);
    var b := TableOf(AddRoute(routes, m, uri, c), m);
    forall i | 0 <= i < |a.keys| ensures b.vals[b.keys[i]] == a.vals[a.keys[i]] {
      assert a.keys[i] != uri;
    }
  }

  /** Registering keeps every method's table well formed. */
  lemma {:induction false} LoadWf(routes: map<string, Table>, regs: seq<Registration>)
    requires TablesWf(routes)
    ensures TablesWf(Load(routes, regs))
    decreases |regs|
  {
    if regs != [] {
      var last := regs[|regs| - 1];
      LoadWf(routes, regs[..|regs| - 1]);
      RegisterSpec(Load(routes, regs[..|regs| - 1]), last.verb, last.uri, last.controller);
    }
  }

  /**
   * When the paths registered for `m` are new and distinct, the table of
   * `m` afterwards lists exactly those paths after the ones it had, in
   * registration order, each with its handler.
   */
  lemma {:induction false} LoadSpec(routes: map<string, Table>, regs: seq<Registration>, m: string)
    requires TablesWf(routes) && Distinct(TableOf(routes, m).keys + UrisOf(regs, m))
    ensures TablesWf(Load(routes, regs))
    ensures TableOf(Load(routes, regs), m).keys == TableOf(routes, m).keys + UrisOf(regs, m)
    ensures ValuesInOrder(TableOf(Load(routes, regs), m)) == ValuesInOrder(TableOf(routes, m)) + HandlersOf(regs, m)
    decreases |regs|
  {
    LoadWf(routes, regs);
    var ks := TableOf(routes, m).keys;
    var vs := ValuesInOrder(TableOf(routes, m));
    if regs == [] {
      assert ks + [] == ks && vs + [] == vs;
    } else {
      var init, last := regs[..|regs| - 1], regs[|regs| - 1];
      SplitLast(ks, vs, regs, m);
      LoadSpec(routes, init, m);
      LoadWf(routes, init);
      LoadSnoc(Load(routes, init), ks + UrisOf(init, m), vs + HandlersOf(init, m), last, m);
    }
  }

  /** The premise and the conclusion of LoadSpec, split before the last registration. */
  lemma SplitLast(ks: seq<string>, vs: seq<string>, regs: seq<Registration>, m: string)
    requires regs != [] && Distinct(ks + UrisOf(regs, m))
    ensures var init, last := regs[..|regs| - 1], regs[|regs| - 1];
      var u := if last.verb == m then [last.uri] else [];
      var h := if last.verb == m then [last.controller] else [];
      Distinct(ks + UrisOf(init, m)) && Distinct((ks + UrisOf(init, m)) + u) &&
      ks + UrisOf(regs, m) == (ks + UrisOf(init, m)) + u &&
      vs + HandlersOf(regs, m) == (vs + HandlersOf(init, m)) + h
  {
    var init, last := regs[..|regs| - 1], regs[|regs| - 1];
    UrisOfSnoc(regs, m);
    assert ks + UrisOf(regs, m) == (ks + UrisOf(init, m)) + UrisOf([last], m);
    assert vs + HandlersOf(regs, m) == (vs + HandlersOf(init, m)) + HandlersOf([last], m);
    DistinctPrefix(ks + UrisOf(init, m), UrisOf([last], m));
  }

  lemma UrisOfSnoc(regs: seq<Registration>, m: string)
    requires regs != []
    ensures var init, last := regs[..|regs| - 1], regs[|regs| - 1];
      UrisOf(regs, m) == UrisOf(init, m) + UrisOf([last], m) &&
      HandlersOf(regs, m) == HandlersOf(init, m) + HandlersOf([last], m) &&
      UrisOf([last], m) == (if last.verb == m then [last.uri] else []) &&
      HandlersOf([last], m) == (if last.verb == m then [last.controller] else [])
  {
    var init, last := regs[..|regs| - 1], regs[|regs| - 1];
    assert regs == init + [last];
    UrisOfAppend(init, [last], m);
    assert [last][1..] == [];
  }

  /** The last registration of a list, on the table the rest of the list built. */
  lemma LoadSnoc(mid: map<string, Table>, ks: seq<string>, vs: seq<string>, last: Registration, m: string)
    requires TablesWf(mid) && TableOf(mid, m).keys == ks && ValuesInOrder(TableOf(mid, m)) == vs
    requires Distinct(ks + (if last.verb == m then [last.uri] else []))
    ensures var t := TableOf(AddRoute(mid, last.verb, last.uri, last.controller), m);
      t.keys == ks + (if last.verb == m then [last.uri] else []) &&
      ValuesInOrder(t) == vs + (if last.verb == m then [last.controller] else [])
  {
    if last.verb == m {
      SnocFresh(ks, last.uri);
      AddFresh(mid, m, last.uri, last.controller);
    } else {
      RegisterSpec(mid, last.verb, last.uri, last.controller);
      assert ks + [] == ks && vs + [] == vs;
    }
  }

  lemma DistinctPrefix(a: seq<string>, b: seq<string>)
    requires Distinct(a + b)
    ensures Distinct(a)
  {
    forall i, j | 0 <= i < j < |a| ensures a[i] != a[j] {
      assert (a + b)[i] == a[i] && (a + b)[j] == a[j];
    }
  }

  lemma SnocFresh(a: seq<string>, u: string)
    requires Distinct(a + [u])
    ensures u !in a
  {
    forall i | 0 <= i < |a| ensures a[i] != u {
      assert (a + [u])[i] == a[i] && (a + [u])[|a|] == u;
    }
  }

  /** The table web.php leaves in the router. */
  function WebTable(): (routes: map<string, Table>)
    ensures TablesWf(routes)
  {
    LoadWf(map[], Web);
    Load(map[], Web)
  }

  const GetRoutes: seq<string> := [
    "/auth/me", "/categories", "/categories/tree", "/categories/{id}", "/items", "/items/{id}",
    "/items/{id}/related", "/tags", "/tags/{id}", "/tags/popular", "/notifications",
    "/notifications/{id}", "/users", "/users/{id}"]

  const GetHandlers: seq<string> := [
    "GenericAuthController@me", "CategoryController@index", "CategoryController@tree",
    "CategoryController@show", "ItemController@index", "ItemController@show", "ItemController@related",
    "TagController@index", "TagController@show", "TagController@popular", "NotificationController@index",
    "NotificationController@show", "UserController@index", "UserController@show"]

  const PutRoutes: seq<string> := [
    "/auth/profile", "/categories/{id}", "/items/{id}", "/tags/{id}", "/notifications/{id}/read",
    "/notifications/read-all", "/users/{id}", "/users/{id}/activate", "/users/{id}/deactivate"]

  const PutHandlers: seq<string> := [
    "GenericAuthController@updateProfile", "CategoryController@update", "ItemController@update",
    "TagController@update", "NotificationController@markAsRead", "NotificationController@markAllAsRead",
    "UserController@update", "UserController@activate", "UserController@deactivate"]

  lemma WebUris(m: string)
    ensures UrisOf(Web, m) == UrisOf(AuthRoutes, m) + UrisOf(CategoryRoutes, m) + UrisOf(ItemRoutes, m) +
      UrisOf(TagRoutes, m) + UrisOf(NotificationRoutes, m) + UrisOf(UserRoutes, m)
    ensures HandlersOf(Web, m) == HandlersOf(AuthRoutes, m) + HandlersOf(CategoryRoutes, m) +
      HandlersOf(ItemRoutes, m) + HandlersOf(TagRoutes, m) + HandlersOf(NotificationRoutes, m) +
      HandlersOf(UserRoutes, m)
  {
    var a, c, i, t, n, u := AuthRoutes, CategoryRoutes, ItemRoutes, TagRoutes, NotificationRoutes, UserRoutes;
    UrisOfAppend(a, c, m);
    UrisOfAppend(a + c, i, m);
    UrisOfAppend(a + c + i, t, m);
    UrisOfAppend(a + c + i + t, n, m);
    UrisOfAppend(a + c + i + t + n, u, m);
  }

  lemma AuthGet()
    ensures UrisOf(AuthRoutes, "GET") == ["/auth/me"]
    ensures HandlersOf(AuthRoutes, "GET") == ["GenericAuthController@me"]
  {
  }

  lemma CategoryGet()
    ensures UrisOf(CategoryRoutes, "GET") == ["/categories", "/categories/tree", "/categories/{id}"]
    ensures HandlersOf(CategoryRoutes, "GET") == ["CategoryController@index", "CategoryController@tree", "CategoryController@show"]
  {
  }

  lemma ItemGet()
    ensures UrisOf(ItemRoutes, "GET") == ["/items", "/items/{id}", "/items/{id}/related"]
    ensures HandlersOf(ItemRoutes, "GET") == ["ItemController@index", "ItemController@show", "ItemController@related"]
  {
  }

  lemma TagGet()
    ensures UrisOf(TagRoutes, "GET") == ["/tags", "/tags/{id}", "/tags/popular"]
    ensures HandlersOf(TagRoutes, "GET") == ["TagController@index", "TagController@show", "TagController@popular"]
  {
  }

  lemma NotificationGet()
    ensures UrisOf(NotificationRoutes, "GET") == ["/notifications", "/notifications/{id}"]
    ensures HandlersOf(NotificationRoutes, "GET") == ["NotificationController@index", "NotificationController@show"]
  {
  }

  lemma UserGet()
    ensures UrisOf(UserRoutes, "GET") == ["/users", "/users/{id}"]
    ensures HandlersOf(UserRoutes, "GET") == ["UserController@index", "UserController@show"]
  {
  }

  /** The GET routes of web.php, in registration order, and their handlers. */
  lemma WebGetLists()
    ensures UrisOf(Web, "GET") == GetRoutes && HandlersOf(Web, "GET") == GetHandlers
  {
    WebGetBySection();
    GetRoutesBySection();
  }

  lemma WebGetBySection()
    ensures UrisOf(Web, "GET") ==
      ["/auth/me"]
      + ["/categories", "/categories/tree", "/categories/{id}"]
      + ["/items", "/items/{id}", "/items/{id}/related"]
      + ["/tags", "/tags/{id}", "/tags/popular"]
      + ["/notifications", "/notifications/{id}"]
      + ["/users", "/users/{id}"]
    ensures HandlersOf(Web, "GET") ==
      ["GenericAuthController@me"]
      + ["CategoryController@index", "CategoryController@tree", "CategoryController@show"]
      + ["ItemController@index", "ItemController@show", "ItemController@related"]
      + ["TagController@index", "TagController@show", "TagController@popular"]
      + ["NotificationController@index", "NotificationController@show"]
      + ["UserController@index", "UserController@show"]
  {
    WebUris("GET");
    AuthGet(); CategoryGet(); ItemGet(); TagGet(); NotificationGet(); UserGet();
  }

  lemma GetRoutesBySection()
    ensures GetRoutes ==
      ["/auth/me"]
      + ["/categories", "/categories/tree", "/categories/{id}"]
      + ["/items", "/items/{id}", "/items/{id}/related"]
      + ["/tags", "/tags/{id}", "/tags/popular"]
      + ["/notifications", "/notifications/{id}"]
      + ["/users", "/users/{id}"]
    ensures GetHandlers ==
      ["GenericAuthController@me"]
      + ["CategoryController@index", "CategoryController@tree", "CategoryController@show"]
      + ["ItemController@index", "ItemController@show", "ItemController@related"]
      + ["TagController@index", "TagController@show", "TagController@popular"]
      + ["NotificationController@index", "NotificationController@show"]
      + ["UserController@index", "UserController@show"]
  {
  }

  lemma AuthPut()
    ensures UrisOf(AuthRoutes, "PUT") == ["/auth/profile"]
    ensures HandlersOf(AuthRoutes, "PUT") == ["GenericAuthController@updateProfile"]
  {
  }

  lemma CategoryPut()
    ensures UrisOf(CategoryRoutes, "PUT") == ["/categories/{id}"]
    ensures HandlersOf(CategoryRoutes, "PUT") == ["CategoryController@update"]
  {
  }

  lemma ItemPut()
    ensures UrisOf(ItemRoutes, "PUT") == ["/items/{id}"]
    ensures HandlersOf(ItemRoutes, "PUT") == ["ItemController@update"]
  {
  }

  lemma TagPut()
    ensures UrisOf(TagRoutes, "PUT") == ["/tags/{id}"]
    ensures HandlersOf(TagRoutes, "PUT") == ["TagController@update"]
  {
  }

  lemma NotificationPut()
    ensures UrisOf(NotificationRoutes, "PUT") == ["/notifications/{id}/read", "/notifications/read-all"]
    ensures HandlersOf(NotificationRoutes, "PUT") == ["NotificationController@markAsRead", "NotificationController@markAllAsRead"]
  {
  }

  lemma UserPut()
    ensures UrisOf(UserRoutes, "PUT") == ["/users/{id}", "/users/{id}/activate", "/users/{id}/deactivate"]
    ensures HandlersOf(UserRoutes, "PUT") == ["UserController@update", "UserController@activate", "UserController@deactivate"]
  {
  }

  /** The PUT routes of web.php, in registration order, and their handlers. */
  lemma WebPutLists()
    ensures UrisOf(Web, "PUT") == PutRoutes && HandlersOf(Web, "PUT") == PutHandlers
  {
    WebPutBySection();
    PutRoutesBySection();
  }

  lemma WebPutBySection()
    ensures UrisOf(Web, "PUT") ==
      ["/auth/profile"]
      + ["/categories/{id}"]
      + ["/items/{id}"]
      + ["/tags/{id}"]
      + ["/notifications/{id}/read", "/notifications/read-all"]
      + ["/users/{id}", "/users/{id}/activate", "/users/{id}/deactivate"]
    ensures HandlersOf(Web, "PUT") ==
      ["GenericAuthController@updateProfile"]
      + ["CategoryController@update"]
      + ["ItemController@update"]
      + ["TagController@update"]
      + ["NotificationController@markAsRead", "NotificationController@markAllAsRead"]
      + ["UserController@update", "UserController@activate", "UserController@deactivate"]
  {
    WebUris("PUT");
    AuthPut(); CategoryPut(); ItemPut(); TagPut(); NotificationPut(); UserPut();
  }

  lemma PutRoutesBySection()
    ensures PutRoutes ==
      ["/auth/profile"]
      + ["/categories/{id}"]
      + ["/items/{id}"]
      + ["/tags/{id}"]
      + ["/notifications/{id}/read", "/notifications/read-all"]
      + ["/users/{id}", "/users/{id}/activate", "/users/{id}/deactivate"]
    ensures PutHandlers ==
      ["GenericAuthController@updateProfile"]
      + ["CategoryController@update"]
      + ["ItemController@update"]
      + ["TagController@update"]
      + ["NotificationController@markAsRead", "NotificationController@markAllAsRead"]
      + ["UserController@update", "UserController@activate", "UserController@deactivate"]
  {
  }

  lemma GetRoutesDistinct()
    ensures Distinct(GetRoutes)
  {
  }

  lemma PutRoutesDistinct()
    ensures Distinct(PutRoutes)
  {
  }

  /** The GET table of web.php: its paths in registration order and their handlers. */
  lemma WebGetTable()
    ensures TableOf(WebTable(), "GET").keys == GetRoutes
    ensures ValuesInOrder(TableOf(WebTable(), "GET")) == GetHandlers
  {
    WebGetLists();
    GetRoutesDistinct();
    var empty: map<string, Table> := map[];
    assert TableOf(empty, "GET").keys == [] && ValuesInOrder(TableOf(empty, "GET")) == [];
    assert [] + GetRoutes == GetRoutes && [] + GetHandlers == GetHandlers;
    LoadSpec(empty, Web, "GET");
  }

  /** The PUT table of web.php: its paths in registration order and their handlers. */
  lemma WebPutTable()
    ensures TableOf(WebTable(), "PUT").keys == PutRoutes
    ensures ValuesInOrder(TableOf(WebTable(), "PUT")) == PutHandlers
  {
    WebPutLists();
    PutRoutesDistinct();
    var empty: map<string, Table> := map[];
    assert TableOf(empty, "PUT").keys == [] && ValuesInOrder(TableOf(empty, "PUT")) == [];
    assert [] + PutRoutes == PutRoutes && [] + PutHandlers == PutHandlers;
    LoadSpec(empty, Web, "PUT");
  }

  /** A route without placeholders does not match a path other than itself (with or without a final newline). */
  lemma LiteralMiss(route: string, uri: string)
    requires '{' !in route && uri != route && uri != route + "\n"
    ensures Match(Compile(route), uri).None?
  {
    LiteralRouteMatch(route, uri);
  }

  lemma AuthMeMissesTree()
    ensures Match(Compile("/auth/me"), "/categories/tree").None?
  {
    LiteralMiss("/auth/me", "/categories/tree");
  }

  lemma CategoriesMissesTree()
    ensures Match(Compile("/categories"), "/categories/tree").None?
  {
    LiteralMiss("/categories", "/categories/tree");
  }

  lemma TreeHit()
    ensures Match(Compile("/categories/tree"), "/categories/tree") == Some([])
  {
    assert "/categories/tree"[0] != '{';
    LiteralRouteSelf("/categories/tree");
  }

  /** The i-th GET route of web.php and its handler. */
  lemma GetEntry(t: Table, i: nat, route: string, handler: string)
    requires Wf(t) && t.keys == GetRoutes && ValuesInOrder(t) == GetHandlers
    requires i < |GetRoutes| && GetRoutes[i] == route && GetHandlers[i] == handler
    ensures t.keys[i] == route && t.vals[route] == handler
  {
    assert ValuesInOrder(t)[i] == t.vals[t.keys[i]];
  }

  /** The i-th PUT route of web.php and its handler. */
  lemma PutEntry(t: Table, i: nat, route: string, handler: string)
    requires Wf(t) && t.keys == PutRoutes && ValuesInOrder(t) == PutHandlers
    requires i < |PutRoutes| && PutRoutes[i] == route && PutHandlers[i] == handler
    ensures t.keys[i] == route && t.vals[route] == handler
  {
    assert ValuesInOrder(t)[i] == t.vals[t.keys[i]];
  }

  /** "/categories/tree" is registered before "/categories/{id}", so it reaches `tree`. */
  lemma TreeFirstMatch(t: Table)
    requires Wf(t) && t.keys == GetRoutes && ValuesInOrder(t) == GetHandlers
    ensures FirstMatch(t, 0, "/categories/tree") == Some(Hit(2, "CategoryController@tree", []))
  {
    TreeSkip0(t);
    TreeSkip1(t);
    TreeFound(t);
  }

  lemma TreeSkip0(t: Table)
    requires Wf(t) && t.keys == GetRoutes && ValuesInOrder(t) == GetHandlers
    ensures FirstMatch(t, 0, "/categories/tree") == FirstMatch(t, 1, "/categories/tree")
  {
    GetEntry(t, 0, "/auth/me", "GenericAuthController@me");
    AuthMeMissesTree();
    FirstMatchSkip(t, 0, "/categories/tree");
  }

  lemma TreeSkip1(t: Table)
    requires Wf(t) && t.keys == GetRoutes && ValuesInOrder(t) == GetHandlers
    ensures FirstMatch(t, 1, "/categories/tree") == FirstMatch(t, 2, "/categories/tree")
  {
    GetEntry(t, 1, "/categories", "CategoryController@index");
    CategoriesMissesTree();
    FirstMatchSkip(t, 1, "/categories/tree");
  }

  lemma TreeFound(t: Table)
    requires Wf(t) && t.keys == GetRoutes && ValuesInOrder(t) == GetHandlers
    ensures FirstMatch(t, 2, "/categories/tree") == Some(Hit(2, "CategoryController@tree", []))
  {
    GetEntry(t, 2, "/categories/tree", "CategoryController@tree");
    TreeHit();
    FirstMatchHere(t, 2, "/categories/tree", "CategoryController@tree", []);
  }

  lemma TreePublic()
    ensures !NeedsAuth("GET", "/categories/tree")
  {
    PrivateGetSpec("/categories/tree");
  }

  /**
   * GET /categories/tree is public and is answered by the handler
   * "CategoryController@tree" without parameters, not by `show` with the
   * parameter "tree".
   */
  lemma CategoriesTreeRoute(req: Request, appEnv: Option<string>, key: string, decode: Decoder, sessions: seq<Session>)
    requires req.verb == "GET" && RequestUri(req.path, appEnv) == "/categories/tree"
    ensures DispatchSpec(WebTable(), req, appEnv, key, decode, sessions) ==
      (Handler("CategoryController@tree", []), sessions)
  {
    WebGetTable();
    TreeFirstMatch(TableOf(WebTable(), "GET"));
    TreePublic();
    PublicIgnoresCredentials(WebTable(), req, appEnv, key, decode, sessions);
  }

  /**
   * "/tags/{id}" is registered before "/tags/popular", so GET /tags/popular
   * reaches `show` with the parameter "popular".
   */
  lemma PopularFirstMatch(t: Table)
    requires Wf(t) && t.keys == GetRoutes && ValuesInOrder(t) == GetHandlers
    ensures FirstMatch(t, 0, "/tags/popular") == Some(Hit(8, "TagController@show", ["popular"]))
  {
    PopularSkip0(t);
    PopularSkip1(t);
    PopularSkip2(t);
    PopularSkip3(t);
    PopularSkip4(t);
    PopularSkip5(t);
    PopularSkip6(t);
    PopularSkip7(t);
    PopularFound(t);
  }

  lemma PopularSkip0(t: Table)
    requires Wf(t) && t.keys == GetRoutes && ValuesInOrder(t) == GetHandlers
    ensures FirstMatch(t, 0, "/tags/popular") == FirstMatch(t, 1, "/tags/popular")
  {
    GetEntry(t, 0, "/auth/me", "GenericAuthController@me");
    PopularMiss0();
    FirstMatchSkip(t, 0, "/tags/popular");
  }

  lemma PopularMiss0()
    ensures Match(Compile("/auth/me"), "/tags/popular").None?
  {
    LiteralMiss("/auth/me", "/tags/popular");
  }

  lemma PopularSkip1(t: Table)
    requires Wf(t) && t.keys == GetRoutes && ValuesInOrder(t) == GetHandlers
    ensures FirstMatch(t, 1, "/tags/popular") == FirstMatch(t, 2, "/tags/popular")
  {
    GetEntry(t, 1, "/categories", "CategoryController@index");
    PopularMiss1();
    FirstMatchSkip(t, 1, "/tags/popular");
  }

  lemma PopularMiss1()
    ensures Match(Compile("/categories"), "/tags/popular").None?
  {
    LiteralMiss("/categories", "/tags/popular");
  }

  lemma PopularSkip2(t: Table)
    requires Wf(t) && t.keys == GetRoutes && ValuesInOrder(t) == GetHandlers
    ensures FirstMatch(t, 2, "/tags/popular") == FirstMatch(t, 3, "/tags/popular")
  {
    GetEntry(t, 2, "/categories/tree", "CategoryController@tree");
    PopularMiss2();
    FirstMatchSkip(t, 2, "/tags/popular");
  }

  lemma PopularMiss2()
    ensures Match(Compile("/categories/tree"), "/tags/popular").None?
  {
    LiteralMiss("/categories/tree", "/tags/popular");
  }

  lemma PopularSkip3(t: Table)
    requires Wf(t) && t.keys == GetRoutes && ValuesInOrder(t) == GetHandlers
    ensures FirstMatch(t, 3, "/tags/popular") == FirstMatch(t, 4, "/tags/popular")
  {
    GetEntry(t, 3, "/categories/{id}", "CategoryController@show");
    PopularMiss3();
    FirstMatchSkip(t, 3, "/tags/popular");
  }

  lemma PopularMiss3()
    ensures Match(Compile("/categories/{id}"), "/tags/popular").None?
  {
    assert "/categories/" + "{id}" == "/categories/{id}";
    PrefixMiss("/categories/", "{id}", "/tags/popular", 1);
  }

  lemma PopularSkip4(t: Table)
    requires Wf(t) && t.keys == GetRoutes && ValuesInOrder(t) == GetHandlers
    ensures FirstMatch(t, 4, "/tags/popular") == FirstMatch(t, 5, "/tags/popular")
  {
    GetEntry(t, 4, "/items", "ItemController@index");
    PopularMiss4();
    FirstMatchSkip(t, 4, "/tags/popular");
  }

  lemma PopularMiss4()
    ensures Match(Compile("/items"), "/tags/popular").None?
  {
    LiteralMiss("/items", "/tags/popular");
  }

  lemma PopularSkip5(t: Table)
    requires Wf(t) && t.keys == GetRoutes && ValuesInOrder(t) == GetHandlers
    ensures FirstMatch(t, 5, "/tags/popular") == FirstMatch(t, 6, "/tags/popular")
  {
    GetEntry(t, 5, "/items/{id}", "ItemController@show");
    PopularMiss5();
    FirstMatchSkip(t, 5, "/tags/popular");
  }

  lemma PopularMiss5()
    ensures Match(Compile("/items/{id}"), "/tags/popular").None?
  {
    assert "/items/" + "{id}" == "/items/{id}";
    PrefixMiss("/items/", "{id}", "/tags/popular", 1);
  }

  lemma PopularSkip6(t: Table)
    requires Wf(t) && t.keys == GetRoutes && ValuesInOrder(t) == GetHandlers
    ensures FirstMatch(t, 6, "/tags/popular") == FirstMatch(t, 7, "/tags/popular")
  {
    GetEntry(t, 6, "/items/{id}/related", "ItemController@related");
    PopularMiss6();
    FirstMatchSkip(t, 6, "/tags/popular");
  }

  lemma PopularMiss6()
    ensures Match(Compile("/items/{id}/related"), "/tags/popular").None?
  {
    assert "/items/" + "{id}/related" == "/items/{id}/related";
    PrefixMiss("/items/", "{id}/related", "/tags/popular", 1);
  }

  lemma PopularSkip7(t: Table)
    requires Wf(t) && t.keys == GetRoutes && ValuesInOrder(t) == GetHandlers
    ensures FirstMatch(t, 7, "/tags/popular") == FirstMatch(t, 8, "/tags/popular")
  {
    GetEntry(t, 7, "/tags", "TagController@index");
    PopularMiss7();
    FirstMatchSkip(t, 7, "/tags/popular");
  }

  lemma PopularMiss7()
    ensures Match(Compile("/tags"), "/tags/popular").None?
  {
    LiteralMiss("/tags", "/tags/popular");
  }

  lemma PopularFound(t: Table)
    requires Wf(t) && t.keys == GetRoutes && ValuesInOrder(t) == GetHandlers
    ensures FirstMatch(t, 8, "/tags/popular") == Some(Hit(8, "TagController@show", ["popular"]))
  {
    GetEntry(t, 8, "/tags/{id}", "TagController@show");
    PopularHit();
    FirstMatchHere(t, 8, "/tags/popular", "TagController@show", ["popular"]);
  }

  lemma PopularHit()
    ensures Match(Compile("/tags/{id}"), "/tags/popular") == Some(["popular"])
  {
    assert "/tags/" + "{" + "id" + "}" + "" == "/tags/{id}" && "/tags/" + "popular" + "" == "/tags/popular";
    ParamRouteHit("/tags/", "id", "", "popular");
  }

  /**
   * PUT /notifications/read-all passes over "/notifications/{id}/read",
   * which needs a third segment, and reaches `markAllAsRead`.
   */
  lemma ReadAllFirstMatch(t: Table)
    requires Wf(t) && t.keys == PutRoutes && ValuesInOrder(t) == PutHandlers
    ensures FirstMatch(t, 0, "/notifications/read-all") == Some(Hit(5, "NotificationController@markAllAsRead", []))
  {
    ReadAllSkip0(t);
    ReadAllSkip1(t);
    ReadAllSkip2(t);
    ReadAllSkip3(t);
    ReadAllSkip4(t);
    ReadAllFound(t);
  }

  lemma ReadAllSkip0(t: Table)
    requires Wf(t) && t.keys == PutRoutes && ValuesInOrder(t) == PutHandlers
    ensures FirstMatch(t, 0, "/notifications/read-all") == FirstMatch(t, 1, "/notifications/read-all")
  {
    PutEntry(t, 0, "/auth/profile", "GenericAuthController@updateProfile");
    ReadAllMiss0();
    FirstMatchSkip(t, 0, "/notifications/read-all");
  }

  lemma ReadAllMiss0()
    ensures Match(Compile("/auth/profile"), "/notifications/read-all").None?
  {
    LiteralMiss("/auth/profile", "/notifications/read-all");
  }

  lemma ReadAllSkip1(t: Table)
    requires Wf(t) && t.keys == PutRoutes && ValuesInOrder(t) == PutHandlers
    ensures FirstMatch(t, 1, "/notifications/read-all") == FirstMatch(t, 2, "/notifications/read-all")
  {
    PutEntry(t, 1, "/categories/{id}", "CategoryController@update");
    ReadAllMiss1();
    FirstMatchSkip(t, 1, "/notifications/read-all");
  }

  lemma ReadAllMiss1()
    ensures Match(Compile("/categories/{id}"), "/notifications/read-all").None?
  {
    assert "/categories/" + "{id}" == "/categories/{id}";
    PrefixMiss("/categories/", "{id}", "/notifications/read-all", 1);
  }

  lemma ReadAllSkip2(t: Table)
    requires Wf(t) && t.keys == PutRoutes && ValuesInOrder(t) == PutHandlers
    ensures FirstMatch(t, 2, "/notifications/read-all") == FirstMatch(t, 3, "/notifications/read-all")
  {
    PutEntry(t, 2, "/items/{id}", "ItemController@update");
    ReadAllMiss2();
    FirstMatchSkip(t, 2, "/notifications/read-all");
  }

  lemma ReadAllMiss2()
    ensures Match(Compile("/items/{id}"), "/notifications/read-all").None?
  {
    assert "/items/" + "{id}" == "/items/{id}";
    PrefixMiss("/items/", "{id}", "/notifications/read-all", 1);
  }

  lemma ReadAllSkip3(t: Table)
    requires Wf(t) && t.keys == PutRoutes && ValuesInOrder(t) == PutHandlers
    ensures FirstMatch(t, 3, "/notifications/read-all") == FirstMatch(t, 4, "/notifications/read-all")
  {
    PutEntry(t, 3, "/tags/{id}", "TagController@update");
    ReadAllMiss3();
    FirstMatchSkip(t, 3, "/notifications/read-all");
  }

  lemma ReadAllMiss3()
    ensures Match(Compile("/tags/{id}"), "/notifications/read-all").None?
  {
    assert "/tags/" + "{id}" == "/tags/{id}";
    PrefixMiss("/tags/", "{id}", "/notifications/read-all", 1);
  }

  lemma ReadAllSkip4(t: Table)
    requires Wf(t) && t.keys == PutRoutes && ValuesInOrder(t) == PutHandlers
    ensures FirstMatch(t, 4, "/notifications/read-all") == FirstMatch(t, 5, "/notifications/read-all")
  {
    PutEntry(t, 4, "/notifications/{id}/read", "NotificationController@markAsRead");
    ReadAllMiss4();
    FirstMatchSkip(t, 4, "/notifications/read-all");
  }

  lemma ReadAllMiss4()
    ensures Match(Compile("/notifications/{id}/read"), "/notifications/read-all").None?
  {
    assert "/notifications/" + "{" + "id" + "}" + "/read" == "/notifications/{id}/read";
    ParamRouteMissLast("/notifications/", "id", "/read", "/notifications/read-all");
  }

  lemma ReadAllFound(t: Table)
    requires Wf(t) && t.keys == PutRoutes && ValuesInOrder(t) == PutHandlers
    ensures FirstMatch(t, 5, "/notifications/read-all") == Some(Hit(5, "NotificationController@markAllAsRead", []))
  {
    PutEntry(t, 5, "/notifications/read-all", "NotificationController@markAllAsRead");
    ReadAllHit();
    FirstMatchHere(t, 5, "/notifications/read-all", "NotificationController@markAllAsRead", []);
  }

  lemma ReadAllHit()
    ensures Match(Compile("/notifications/read-all"), "/notifications/read-all") == Some([])
  {
    assert "/notifications/read-all"[0] != '{';
    LiteralRouteSelf("/notifications/read-all");
  }
  // ---------------------------------------------------------------------------
  // Dispatch of particular requests against the web.php table

  lemma PopularPublic()
    ensures !NeedsAuth("GET", "/tags/popular")
  {
    PrivateGetSpec("/tags/popular");
  }

  /**
   * GET /tags/popular is public and is answered by `TagController@show`
   * with the parameter "popular": the `popular` action is shadowed.
   */
  lemma TagsPopularShadowed(req: Request, appEnv: Option<string>, key: string, decode: Decoder, sessions: seq<Session>)
    requires req.verb == "GET" && RequestUri(req.path, appEnv) == "/tags/popular"
    ensures DispatchSpec(WebTable(), req, appEnv, key, decode, sessions) ==
      (Handler("TagController@show", ["popular"]), sessions)
  {
    WebGetTable();
    PopularFirstMatch(TableOf(WebTable(), "GET"));
    PopularPublic();
    PublicIgnoresCredentials(WebTable(), req, appEnv, key, decode, sessions);
  }

  /** No GET path whatever reaches the route "/tags/popular" (position 9 of the table). */
  lemma PopularUnreachable(t: Table, uri: string)
    requires Wf(t) && t.keys == GetRoutes && ValuesInOrder(t) == GetHandlers
    ensures FirstMatch(t, 0, uri).Some? ==> FirstMatch(t, 0, uri).value.index != 9
  {
    PopularKeys(t);
    PopularParts();
    ShadowedRoute(t, 8, 9, "/tags/", "popular", "id", uri);
  }

  lemma PopularKeys(t: Table)
    requires Wf(t) && t.keys == GetRoutes && ValuesInOrder(t) == GetHandlers
    ensures 9 < |t.keys| && t.keys[8] == "/tags/" + "{" + "id" + "}" && t.keys[9] == "/tags/" + "popular"
  {
  }

  lemma PopularParts()
    ensures '{' !in "/tags/" && IsName("id") && IsCapture("popular")
  {
  }

  /**
   * An authenticated PUT /notifications/read-all is answered by
   * `markAllAsRead` without parameters.
   */
  lemma ReadAllRoute(req: Request, appEnv: Option<string>, key: string, decode: Decoder, sessions: seq<Session>)
    requires req.verb == "PUT" && RequestUri(req.path, appEnv) == "/notifications/read-all"
    requires RouterGate(req.authorization, key, decode, sessions).0.Through?
    ensures DispatchSpec(WebTable(), req, appEnv, key, decode, sessions).0 ==
      Handler("NotificationController@markAllAsRead", [])
  {
    WebPutTable();
    ReadAllFirstMatch(TableOf(WebTable(), "PUT"));
    DispatchPastGate(WebTable(), req, appEnv, key, decode, sessions);
  }

  /** The POST routes of web.php that the router lets through without a token. */
  lemma PublicPosts()
    ensures !NeedsAuth("POST", "/auth/login") && !NeedsAuth("POST", "/auth/register")
    ensures !NeedsAuth("POST", "/auth/request-reset") && !NeedsAuth("POST", "/auth/reset-password")
  {
  }

  /** The other POST routes of web.php need a token. */
  lemma GatedPosts()
    ensures NeedsAuth("POST", "/auth/logout") && NeedsAuth("POST", "/auth/change-password")
    ensures NeedsAuth("POST", "/categories") && NeedsAuth("POST", "/items") && NeedsAuth("POST", "/tags")
    ensures forall id :: NeedsAuth("POST", "/items/" + id + "/like") && NeedsAuth("POST", "/items/" + id + "/share")
  {
    forall id ensures NeedsAuth("POST", "/items/" + id + "/like") && NeedsAuth("POST", "/items/" + id + "/share") {
      ItemsPathNotPublic("/items/" + id + "/like");
      ItemsPathNotPublic("/items/" + id + "/share");
    }
  }

  /**
   * GET /notifications, /users and /users/{id} are public at the router,
   * whatever the comments above them say: only the two auth paths are
   * private GETs.
   */
  lemma PublicGets(id: string)
    ensures !NeedsAuth("GET", "/notifications") && !NeedsAuth("GET", "/users")
    ensures !NeedsAuth("GET", "/users/" + id)
  {
    PrivateGetSpec("/notifications");
    PrivateGetSpec("/users");
    var u := "/users/" + id;
    PrivateGetSpec(u);
    assert u[1] == 'u';
  }

  /** No path under "/items/" is in the public list. */
  lemma ItemsPathNotPublic(uri: string)
    requires |uri| >= 7 && uri[..7] == "/items/"
    ensures uri !in PublicRoutes
  {
    assert uri[..7][2] == uri[2];
    forall k | 0 <= k < |PublicRoutes| ensures PublicRoutes[k] != uri {
      assert PublicRoutes[k][2] != 't';
    }
  }
}
