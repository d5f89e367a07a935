/** The route guard every protected page runs after rendering. */
module AuthGuard {
  import opened Wrappers
  import Text

  /** The pages a visitor without a token may see. */
  const PublicRoutes: seq<string> := ["/login", "/register"]
  const LoginPath := "/login"
  const HomePath := "/"

  /** Where the guard sends the browser, if anywhere, given whether it runs
      in a browser, the stored token and the current path. */
  function Redirect(inBrowser: bool, token: Option<string>, path: string): (r: Option<string>)
    ensures r.Some? ==> r.value != path
    ensures r == Some(LoginPath) <==> inBrowser && !Text.Truthy(token) && path !in PublicRoutes
    ensures r == Some(HomePath) <==> inBrowser && Text.Truthy(token) && path in PublicRoutes
    ensures r.None? <==> !inBrowser || (Text.Truthy(token) <==> path !in PublicRoutes)
  {
    if !inBrowser then None
    else if !Text.Truthy(token) then
      if path !in PublicRoutes then Some(LoginPath) else None
    else
      if path in PublicRoutes then Some(HomePath) else None
  }

  /** The guard never bounces: at the page it sends the browser to, with
      the same token, it stays put. */
  lemma RedirectSettles(token: Option<string>, path: string)
    requires Redirect(true, token, path).Some?
    ensures Redirect(true, token, Redirect(true, token, path).value).None?
  {
    assert LoginPath in PublicRoutes;
    assert HomePath !in PublicRoutes;
  }
}
