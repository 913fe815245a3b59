/**
 * The client's start-up (app.component.ts): where the app goes when it opens.
 */
module AppComponent {
  import opened Wrappers
  import AuthService

  const LOGIN_ROUTE: string := "/login"
  const POSTS_ROUTE: string := "/posts"

  /** `ngOnInit()`: the route navigated to, or `None` when the app stays where it
      is. Only a `rememberMe` cookie of exactly `'true'` with a non-empty token
      avoids the login page, and then only the root url moves on to the posts. */
  function StartupNavigation(rememberMeCookie: string, token: Option<string>, url: string): (target: Option<string>)
    ensures target == Some(LOGIN_ROUTE) <==> !(rememberMeCookie == "true" && AuthService.Truthy(token))
    ensures target == Some(POSTS_ROUTE) <==> rememberMeCookie == "true" && AuthService.Truthy(token) && url == "/"
    ensures target == None <==> rememberMeCookie == "true" && AuthService.Truthy(token) && url != "/"
  {
    var rememberMe := rememberMeCookie == "true";
    if !(rememberMe && token.Some? && token.value != "") then Some(LOGIN_ROUTE)
    else if url == "/" then Some(POSTS_ROUTE)
    else None
  }

  /** A logout followed by the next start-up: `logout()` deletes the `rememberMe`
      cookie and clears the token, so start-up goes to the login page whatever the url. */
  method StartupAfterLogout(service: AuthService.AuthService, url: string) returns (target: Option<string>)
    requires service.Valid()
    modifies service, service.cookieStore
    ensures target == StartupNavigation(AuthService.CookieValue(service.cookieStore.cookies, AuthService.REMEMBER_ME_COOKIE), service.token, url)
    ensures target == Some(LOGIN_ROUTE)
  {
    service.Logout();
    target := StartupNavigation(AuthService.CookieValue(service.cookieStore.cookies, AuthService.REMEMBER_ME_COOKIE), service.token, url);
  }
}
