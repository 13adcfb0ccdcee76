/** The route table of `App.jsx`: three public pages and three pages that need the
    token kept in localStorage. */
module AppRoutes {
  import opened Wrappers

  datatype Page = HomePage | LoginPage | DiscoverPage | DashboardPage | ProfilePage | SettingsPage

  /** What the router shows for a location: a page, a `<Navigate>` redirect, or
      nothing when no route matches. */
  datatype Screen = Render(page: Page) | Redirect(to: string) | NoRoute

  /** A render of `App`: the token handed to `setAuth` (if it was called) and the screen. */
  datatype AppView = AppView(authToken: Option<string>, screen: Screen)

  /** JavaScript truthiness of `localStorage.getItem('token')`: null and the empty
      string are falsy. */
  predicate Truthy(token: Option<string>) {
    token.Some? && token.value != ""
  }

  const PublicPaths: set<string> := {"/", "/login", "/discover"}
  const GuardedPaths: set<string> := {"/dashboard", "/profile", "/settings"}

  /** The `<Routes>` element for a pathname. */
  function Route(path: string, token: Option<string>): Screen {
    if path == "/" then Render(HomePage)
    else if path == "/login" then Render(LoginPage)
    else if path == "/discover" then Render(DiscoverPage)
    else if path in GuardedPaths then
      if !Truthy(token) then Redirect("/login")
      else if path == "/dashboard" then Render(DashboardPage)
      else if path == "/profile" then Render(ProfilePage)
      else Render(SettingsPage)
    else NoRoute
  }

  /** One render of `App`. */
  function App(path: string, token: Option<string>): (r: AppView)
    ensures r.authToken.Some? <==> Truthy(token)
    ensures r.authToken.Some? ==> r.authToken == token
    ensures path in GuardedPaths && Truthy(token) ==> r.screen.Render?
    ensures path in GuardedPaths && !Truthy(token) ==> r.screen == Redirect("/login")
    ensures path in PublicPaths ==> r.screen.Render? && r.screen == Route(path, None)
    ensures path !in PublicPaths && path !in GuardedPaths ==> r.screen == NoRoute
  {
    AppView(if Truthy(token) then token else None, Route(path, token))
  }

  /** A guarded page renders exactly when the token is truthy, and each guarded path
      renders its own page. */
  lemma GuardedPages(token: Option<string>)
    ensures App("/dashboard", token).screen == Render(DashboardPage) <==> Truthy(token)
    ensures App("/profile", token).screen == Render(ProfilePage) <==> Truthy(token)
    ensures App("/settings", token).screen == Render(SettingsPage) <==> Truthy(token)
  {
  }

  /** The redirect target is public, so following a redirect shows the login page
      whatever the token. */
  lemma RedirectEndsAtLogin(path: string, token: Option<string>)
    requires App(path, token).screen.Redirect?
    ensures App(App(path, token).screen.to, token).screen == Render(LoginPage)
  {
  }
  /** The token Login's handlers store before navigating to the dashboard. */
  const DemoToken: string := "demo-token"

  /** A browser tab running the app: the token `App` read when it last rendered, the
      token now in localStorage, and the screen shown. Only a page load renders `App`
      again; `navigate` re-renders the routes built in that render. */
  datatype Tab = Tab(renderedToken: Option<string>, storedToken: Option<string>, screen: Screen)

  /** Loading or reloading the page at `path`: `App` renders and reads localStorage. */
  function Load(stored: Option<string>, path: string): (r: Tab)
    ensures r.renderedToken == stored && r.storedToken == stored
    ensures path in GuardedPaths ==> (r.screen.Render? <==> Truthy(stored))
    ensures path in PublicPaths ==> r.screen.Render?
  {
    Tab(stored, stored, App(path, stored).screen)
  }

  /** Login's skip and success handlers as written: store the demo token, then
      `navigate(path)`. The guard still tests the token of `App`'s last render, so
      after a load without a token the freshly stored one is not seen. */
  function LoginThenNavigateAsWritten(t: Tab, path: string): (r: Tab)
    ensures r.storedToken == Some(DemoToken) && r.renderedToken == t.renderedToken
    ensures path in GuardedPaths ==> (r.screen.Render? <==> Truthy(t.renderedToken))
  {
    Tab(t.renderedToken, Some(DemoToken), Route(path, t.renderedToken))
  }

  /** A visitor without a token who skips sign-up is sent from the dashboard straight
      back to the login page, although the token is now stored. */
  lemma SkipBouncesToLogin()
    ensures var t := LoginThenNavigateAsWritten(Load(None, "/login"), "/dashboard");
            Truthy(t.storedToken) && t.screen == Redirect("/login")
  {
  }

  /** The handlers as evidently intended: the guard tests the token just stored (as it
      would if `App` kept the token in state that the handlers update). */
  function LoginThenNavigate(t: Tab, path: string): (r: Tab)
    ensures r.storedToken == Some(DemoToken) && r.renderedToken == r.storedToken
    ensures path in GuardedPaths ==> r.screen.Render?
    ensures path !in GuardedPaths ==> r.screen == Route(path, t.renderedToken)
  {
    Tab(Some(DemoToken), Some(DemoToken), App(path, Some(DemoToken)).screen)
  }

  /** With the corrected handlers, skipping or finishing sign-up shows the dashboard
      from any tab, and the screen agrees with a fresh load of the same path. */
  lemma LoginReachesDashboard(t: Tab)
    ensures LoginThenNavigate(t, "/dashboard").screen == Render(DashboardPage)
    ensures forall path :: LoginThenNavigate(t, path).screen == Load(Some(DemoToken), path).screen
  {
  }
}
