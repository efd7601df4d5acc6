/**
 * The article and category routers: each route is a method, a path pattern, the guards in front of
 * its handler, and the handler. A request goes to the first route, in registration order, whose
 * method and pattern match.
 */
module Routes {
  import opened Wrappers
  import opened Text
  import opened Domain
  import opened AuthMiddleware
  import Storage
  import CategoryController

  datatype Method = Get | Post | Patch | Delete

  /** A path segment of a route pattern: literal text, or a named parameter such as `:slug`. */
  datatype Segment = Lit(text: string) | Param

  /** The middleware in front of a handler. */
  datatype Guard = Public | Optional | Authenticated | Authorized(roles: seq<Role>)

  datatype Handler =
    | Trending | ListArticles | ArticleBySlug | Related | CreateArticle | UpdateArticle | DeleteArticle
    | ListCategories | CategoryBySlug | CreateCategory | UpdateCategory | DeleteCategory

  datatype Route = Route(verb: Method, pattern: seq<Segment>, guard: Guard, handler: Handler)

  /** The roles `createArticle` admits: all four. */
  const AllRolesList: seq<Role> := [Reporter, SubEditor, Editor, Admin]

  /** The article router under `/api/articles`, in registration order. */
  const ArticleRoutes: seq<Route> := [
    Route(Get, [Lit("trending")], Public, Trending),
    Route(Get, [], Optional, ListArticles),
    Route(Get, [Param], Optional, ArticleBySlug),
    Route(Get, [Param, Lit("related")], Public, Related),
    Route(Post, [], Authorized(AllRolesList), CreateArticle),
    Route(Patch, [Param], Authenticated, UpdateArticle),
    Route(Delete, [Param], Authenticated, DeleteArticle)
  ]

  /** The category router under `/api/categories`, in registration order. */
  const CategoryRoutes: seq<Route> := [
    Route(Get, [], Public, ListCategories),
    Route(Get, [Param], Public, CategoryBySlug),
    Route(Post, [], Authorized([Editor, Admin]), CreateCategory),
    Route(Patch, [Param], Authorized([Editor, Admin]), UpdateCategory),
    Route(Delete, [Param], Authorized([Admin]), DeleteCategory)
  ]

  /**
   * One path segment against one pattern segment: literals compare without regard to ASCII case,
   * a parameter takes any non-empty segment.
   */
  predicate SegmentMatches(p: Segment, seg: string) {
    match p
    case Lit(text) => Lower(seg) == Lower(text)
    case Param => seg != ""
  }

  predicate PatternMatches(pattern: seq<Segment>, path: seq<string>) {
    |pattern| == |path| && forall i :: 0 <= i < |path| ==> SegmentMatches(pattern[i], path[i])
  }

  predicate RouteMatches(r: Route, m: Method, path: seq<string>) {
    r.verb == m && PatternMatches(r.pattern, path)
  }

  /** First-match dispatch: the index of the route that handles the request, if any. */
  function Dispatch(routes: seq<Route>, m: Method, path: seq<string>): (r: Option<nat>)
    ensures r.Some? ==> r.value < |routes| && RouteMatches(routes[r.value], m, path)
    ensures r.Some? ==> forall j :: 0 <= j < r.value ==> !RouteMatches(routes[j], m, path)
    ensures r.None? <==> forall j :: 0 <= j < |routes| ==> !RouteMatches(routes[j], m, path)
    decreases |routes|
  {
    if routes == [] then None
    else if RouteMatches(routes[0], m, path) then Some(0)
    else match Dispatch(routes[1..], m, path)
      case None => None
      case Some(k) => Some(k + 1)
  }

  /** The handler a request reaches, if any. */
  function Target(routes: seq<Route>, m: Method, path: seq<string>): Option<Handler> {
    match Dispatch(routes, m, path)
    case None => None
    case Some(k) => Some(routes[k].handler)
  }

  /**
   * `/trending` is registered before `/:slug`: a GET of `trending`, in any letter case, reaches the
   * trending handler and never the by-slug one.
   */
  lemma TrendingShadowsSlug(seg: string)
    requires Lower(seg) == "trending"
    ensures Target(ArticleRoutes, Get, [seg]) == Some(Trending)
  {
    assert RouteMatches(ArticleRoutes[0], Get, [seg]);
  }

  /** Any other single segment goes to the by-slug handler. */
  lemma OtherSegmentsReachSlug(seg: string)
    requires seg != "" && Lower(seg) != "trending"
    ensures Target(ArticleRoutes, Get, [seg]) == Some(ArticleBySlug)
  {
    LowerIdentity("trending");
    assert !SegmentMatches(Lit("trending"), seg);
    assert ArticleRoutes[0].pattern == [Lit("trending")];
    assert !PatternMatches([Lit("trending")], [seg]) by {
      assert [seg][0] == seg;
    }
    assert !RouteMatches(ArticleRoutes[1], Get, [seg]);
    assert RouteMatches(ArticleRoutes[2], Get, [seg]);
  }

  /**
   * The middleware chain of a guard: the user the handler sees (none on a public route), or the
   * rejection that stops the request.
   */
  function Admit(g: Guard, header: Option<string>, secret: Option<string>, verify: Verifier, active: map<nat, bool>): (r: Result<Option<Payload>, Rejection>)
    ensures g == Public ==> r == Ok(None)
    ensures g == Optional ==> r == Ok(OptionalAuth(header, secret, verify))
    ensures g.Authenticated? ==>
      r == (match Authenticate(header, secret, verify, active)
            case Ok(p) => Ok(Some(p))
            case Err(e) => Err(e))
    ensures g.Authorized? && r.Ok? ==>
      r.value.Some? && r.value.value.role in g.roles && Authenticate(header, secret, verify, active) == Ok(r.value.value)
    ensures g.Authorized? && Authenticate(header, secret, verify, active).Ok? ==>
      (r.Ok? <==> Authenticate(header, secret, verify, active).value.role in g.roles)
  {
    match g
    case Public => Ok(None)
    case Optional => Ok(OptionalAuth(header, secret, verify))
    case Authenticated =>
      (match Authenticate(header, secret, verify, active)
       case Ok(p) => Ok(Some(p))
       case Err(e) => Err(e))
    case Authorized(roles) =>
      match Authenticate(header, secret, verify, active)
      case Err(e) => Err(e)
      case Ok(p) =>
        match Authorize(Some(p), roles)
        case Some(e) => Err(e)
        case None => Ok(Some(p))
  }

  /** The public and optional guards never reject: reads need no account. */
  lemma ReadsNeverRejected(g: Guard, header: Option<string>, secret: Option<string>, verify: Verifier, active: map<nat, bool>)
    requires g == Public || g == Optional
    ensures Admit(g, header, secret, verify, active).Ok?
  {
  }

  /** A guard that lets every request through. */
  predicate Open(g: Guard) {
    g == Public || g == Optional
  }

  /** The guards of the article routes: reads are open, writes need an account, create admits all four roles. */
  lemma ArticleRouteGuards()
    ensures forall i :: 0 <= i < |ArticleRoutes| ==> (ArticleRoutes[i].verb == Get <==> Open(ArticleRoutes[i].guard))
    ensures forall i :: 0 <= i < |ArticleRoutes| && ArticleRoutes[i].handler == CreateArticle ==>
      ArticleRoutes[i].guard.Authorized? && forall role: Role :: role in ArticleRoutes[i].guard.roles
  {
    forall role: Role ensures role in AllRolesList {
      match role
      case Reporter => assert AllRolesList[0] == role;
      case SubEditor => assert AllRolesList[1] == role;
      case Editor => assert AllRolesList[2] == role;
      case Admin => assert AllRolesList[3] == role;
    }
  }

  /** The guards of the category routes: reads are public, create and update need EDITOR or ADMIN, delete ADMIN. */
  lemma CategoryRouteGuards()
    ensures forall i :: 0 <= i < |CategoryRoutes| ==> (CategoryRoutes[i].verb == Get <==> CategoryRoutes[i].guard == Public)
    ensures forall i :: 0 <= i < |CategoryRoutes| && CategoryRoutes[i].verb != Get ==>
      CategoryRoutes[i].guard.Authorized? && Admin in CategoryRoutes[i].guard.roles
      && Reporter !in CategoryRoutes[i].guard.roles && SubEditor !in CategoryRoutes[i].guard.roles
    ensures forall i :: 0 <= i < |CategoryRoutes| && CategoryRoutes[i].verb == Delete ==> CategoryRoutes[i].guard.roles == [Admin]
  {
  }

  /**
   * `DELETE /api/categories/:id` end to end: it succeeds only for an active ADMIN, and only on a
   * category whose counter is not positive.
   */
  function DeleteCategoryRequest(s: Storage.Store, id: nat, header: Option<string>, secret: Option<string>, verify: Verifier, active: map<nat, bool>): (r: Result<Storage.Store, Rejection>)
    ensures r.Ok? ==>
      && Authenticate(header, secret, verify, active).Ok?
      && Authenticate(header, secret, verify, active).value.role == Admin
      && id in s.categories && s.categories[id].articleCount <= 0
      && r.value == s.(categories := s.categories - {id})
    ensures Authenticate(header, secret, verify, active).Ok? && Authenticate(header, secret, verify, active).value.role != Admin ==>
      r == Err(Rejection(403, Forbidden))
  {
    var route := CategoryRoutes[4];
    match Admit(route.guard, header, secret, verify, active)
    case Err(e) => Err(e)
    case Ok(_) =>
      match CategoryController.DeleteCategory(s, id)
      case Err(code) => Err(Rejection(StoreErrorStatus(code), code))
      case Ok(s') => Ok(s')
  }

  /** That request reaches the delete handler: the route table and the dispatcher agree. */
  lemma DeleteCategoryRouted(seg: string)
    requires seg != ""
    ensures Dispatch(CategoryRoutes, Delete, [seg]) == Some(4) && CategoryRoutes[4].handler == DeleteCategory
  {
    assert RouteMatches(CategoryRoutes[4], Delete, [seg]);
  }
}
