/**
 * The application's route table and `ProtectedAdminRoute`: every /admin
 * page is wrapped in the guard, which sends an unauthenticated visitor to
 * /login and an authenticated non-admin to the home page.
 */
module AppRoutes {
  import opened Wrappers
  import opened Text
  import AuthContext

  datatype Page =
    | Index | Contestants | Register | Login | Signup
    | AdminDashboard | AdminContestants | AdminPosters | AdminSettings | AdminRegistrations | AdminMessages
    | NotFound

  /** A route's element: the page itself, or the page inside `ProtectedAdminRoute`. */
  datatype Element = Plain(page: Page) | Guarded(page: Page)

  datatype Route = Route(path: string, element: Element)

  /** What the router shows: a redirect or a page. */
  datatype View = Navigate(to: string) | Show(page: Page)

  /** What the guard does with its children. */
  datatype Guard = RedirectTo(path: string) | RenderChildren

  /** `ProtectedAdminRoute`: the authentication check comes first, then the role. */
  function GuardDecision(isAuthenticated: bool, isAdmin: bool): (g: Guard)
    ensures g == RenderChildren <==> isAuthenticated && isAdmin
    ensures !isAuthenticated ==> g == RedirectTo("/login")
    ensures isAuthenticated && !isAdmin ==> g == RedirectTo("/")
  {
    if !isAuthenticated then RedirectTo("/login")
    else if !isAdmin then RedirectTo("/")
    else RenderChildren
  }

  /** The `<Routes>` table, before the catch-all. */
  const Routes: seq<Route> := [
    Route("/", Plain(Index)),
    Route("/contestants", Plain(Contestants)),
    Route("/register", Plain(Register)),
    Route("/login", Plain(Login)),
    Route("/signup", Plain(Signup)),
    Route("/admin", Guarded(AdminDashboard)),
    Route("/admin/contestants", Guarded(AdminContestants)),
    Route("/admin/posters", Guarded(AdminPosters)),
    Route("/admin/settings", Guarded(AdminSettings)),
    Route("/admin/registrations", Guarded(AdminRegistrations)),
    Route("/admin/messages", Guarded(AdminMessages))
  ]

  predicate IsAdminPage(p: Page) {
    p in {AdminDashboard, AdminContestants, AdminPosters, AdminSettings, AdminRegistrations, AdminMessages}
  }

  /** The /admin section: the path is "/admin" or starts with "/admin/". */
  predicate IsAdminPath(path: string) {
    path == "/admin" || (|path| > 7 && path[..7] == "/admin/")
  }

  /** The element of the first route whose path equals `path`, or the catch-all `NotFound`. */
  function Resolve(routes: seq<Route>, path: string): (e: Element)
    ensures e == Plain(NotFound) || exists k :: 0 <= k < |routes| && routes[k].path == path && routes[k].element == e
    ensures (forall k :: 0 <= k < |routes| ==> routes[k].path != path) ==> e == Plain(NotFound)
    decreases |routes|
  {
    if routes == [] then Plain(NotFound)
    else if routes[0].path == path then routes[0].element
    else Resolve(routes[1..], path)
  }

  /** What a visit to `path` shows, given the context's two flags. */
  function Visit(path: string, isAuthenticated: bool, isAdmin: bool): View {
    match Resolve(Routes, path)
    case Plain(p) => Show(p)
    case Guarded(p) =>
      match GuardDecision(isAuthenticated, isAdmin)
      case RedirectTo(to) => Navigate(to)
      case RenderChildren => Show(p)
  }

  /** Every route under /admin is guarded, shows an admin page, and every other route is neither. */
  lemma AdminRoutesGuarded()
    ensures forall k :: 0 <= k < |Routes| ==>
      (IsAdminPath(Routes[k].path) <==> Routes[k].element.Guarded?)
    ensures forall k :: 0 <= k < |Routes| ==>
      (Routes[k].element.Guarded? <==> IsAdminPage(Routes[k].element.page))
  {
    forall k | 0 <= k < |Routes|
      ensures IsAdminPath(Routes[k].path) <==> Routes[k].element.Guarded?
    {
      if k < 5 {
        if |Routes[k].path| > 7 {
          assert Routes[k].path[..7][1] != "/admin/"[1];
        }
      }
    }
  }

  /** An admin page is shown only to an authenticated admin, whatever the path. */
  lemma AdminPagesNeedAdmin(path: string, isAuthenticated: bool, isAdmin: bool)
    ensures Visit(path, isAuthenticated, isAdmin).Show? && IsAdminPage(Visit(path, isAuthenticated, isAdmin).page)
      ==> isAuthenticated && isAdmin
  {
    AdminRoutesGuarded();
  }

  /** Visiting a route's own path runs that route's element. */
  lemma VisitRoute(k: nat)
    requires k < |Routes|
    ensures Resolve(Routes, Routes[k].path) == Routes[k].element
  {
    RoutePathsDistinct();
    ResolveFinds(Routes, k);
  }

  /** An admin path redirects an anonymous visitor to /login, and a non-admin to the home page. */
  lemma AdminPathsRedirect(k: nat, isAuthenticated: bool, isAdmin: bool)
    requires k < |Routes| && IsAdminPath(Routes[k].path)
    ensures !isAuthenticated ==> Visit(Routes[k].path, isAuthenticated, isAdmin) == Navigate("/login")
    ensures isAuthenticated && !isAdmin ==> Visit(Routes[k].path, isAuthenticated, isAdmin) == Navigate("/")
    ensures isAuthenticated && isAdmin ==> Visit(Routes[k].path, isAuthenticated, isAdmin) == Show(Routes[k].element.page)
  {
    AdminRoutesGuarded();
    VisitRoute(k);
  }

  lemma RoutePathsDistinct()
    ensures forall i, j :: 0 <= i < j < |Routes| ==> Routes[i].path != Routes[j].path
  {
  }

  /** With distinct paths, resolving a route's path finds that route. */
  lemma {:induction false} ResolveFinds(routes: seq<Route>, k: nat)
    requires k < |routes|
    requires forall i, j :: 0 <= i < j < |routes| ==> routes[i].path != routes[j].path
    ensures Resolve(routes, routes[k].path) == routes[k].element
    decreases k
  {
    if k > 0 {
      assert routes[0].path != routes[k].path;
      ResolveFinds(routes[1..], k - 1);
    }
  }

  /**
   * Against the authentication context: after logout every admin path
   * redirects to /login, and a plain user signed up through the context
   * is sent home.
   */
  lemma AdminPathsForContextUser(k: nat, current: Option<AuthContext.User>)
    requires k < |Routes| && IsAdminPath(Routes[k].path)
    ensures current.None? ==>
      Visit(Routes[k].path, AuthContext.Authenticated(current), AuthContext.Admin(current)) == Navigate("/login")
    ensures current.Some? && current.value.role == AuthContext.UserRole ==>
      Visit(Routes[k].path, AuthContext.Authenticated(current), AuthContext.Admin(current)) == Navigate("/")
  {
    AdminPathsRedirect(k, AuthContext.Authenticated(current), AuthContext.Admin(current));
  }
}
