/**
 * The client's session (auth.service.ts): the token kept in a cookie and in the
 * service's logged-in/token state, the authorization header, and the user
 * details read from the token's claims.
 */
module AuthService {
  import opened Wrappers

  const AUTH_TOKEN_COOKIE: string := "authToken"
  const REMEMBER_ME_COOKIE: string := "rememberMe"
  const LOGIN_ROUTE: string := "/login"

  /** `cookieService.get(name)`: the empty string for an absent cookie. */
  function CookieValue(cookies: map<string, string>, name: string): (v: string)
    ensures name !in cookies ==> v == ""
    ensures name in cookies ==> v == cookies[name]
  {
    if name in cookies then cookies[name] else ""
  }

  /** JavaScript truthiness of a `string | null`. */
  predicate Truthy(s: Option<string>)
  {
    s.Some? && s.value != ""
  }

  /** The browser's cookies, by name. */
  class CookieStore {
    var cookies: map<string, string>

    constructor (cookies: map<string, string>)
      ensures this.cookies == cookies
    {
      this.cookies := cookies;
    }

    method Set(name: string, value: string)
      modifies this
      ensures cookies == old(cookies)[name := value]
    {
      cookies := cookies[name := value];
    }

    method Delete(name: string)
      modifies this
      ensures cookies == old(cookies) - {name}
    {
      cookies := cookies - {name};
    }
  }

  /** The claims the client reads from a decoded token; absent ones are `undefined`. */
  datatype Payload = Payload(userId: Option<string>, sub: Option<string>, username: Option<string>)

  /** What `getUserInfo` emits for a decoded token. */
  datatype UserInfo = UserInfo(userId: Option<string>, username: Option<string>)

  class AuthService {
    const cookieStore: CookieStore
    var isLoggedIn: bool
    var token: Option<string>
    /** The routes navigated to, oldest first. */
    var navigations: seq<string>

    /** The two pieces of session state agree. */
    predicate Valid()
      reads this
    {
      isLoggedIn <==> token.Some?
    }

    /** The constructor: a non-empty `authToken` cookie restores the session. */
    constructor (cookieStore: CookieStore)
      ensures Valid()
      ensures this.cookieStore == cookieStore && navigations == []
      ensures var saved := CookieValue(cookieStore.cookies, AUTH_TOKEN_COOKIE);
              && (saved != "" ==> isLoggedIn && token == Some(saved))
              && (saved == "" ==> !isLoggedIn && token == None)
    {
      this.cookieStore := cookieStore;
      navigations := [];
      var saved := CookieValue(cookieStore.cookies, AUTH_TOKEN_COOKIE);
      if saved != "" {
        isLoggedIn := true;
        token := Some(saved);
      } else {
        isLoggedIn := false;
        token := None;
      }
    }

    /** `authenticate(username, password)` once the login request has answered:
        `response` is the token of a successful answer and `None` for an error. */
    method Authenticate(response: Option<string>) returns (ok: bool)
      requires Valid()
      modifies this, cookieStore
      ensures Valid()
      ensures ok <==> response.Some?
      ensures response.Some? ==>
        && cookieStore.cookies == old(cookieStore.cookies)[AUTH_TOKEN_COOKIE := response.value]
        && isLoggedIn && token == response
      ensures response.None? ==>
        cookieStore.cookies == old(cookieStore.cookies) && isLoggedIn == old(isLoggedIn) && token == old(token)
      ensures navigations == old(navigations)
    {
      match response
      case None =>
        ok := false;
      case Some(t) =>
        cookieStore.Set(AUTH_TOKEN_COOKIE, t);
        isLoggedIn := true;
        token := Some(t);
        ok := true;
    }

    /** `logout()`: forgets both cookies and the session, and goes to the login page. */
    method Logout()
      requires Valid()
      modifies this, cookieStore
      ensures Valid()
      ensures cookieStore.cookies == old(cookieStore.cookies) - {REMEMBER_ME_COOKIE, AUTH_TOKEN_COOKIE}
      ensures !isLoggedIn && token == None
      ensures navigations == old(navigations) + [LOGIN_ROUTE]
    {
      cookieStore.Delete(REMEMBER_ME_COOKIE);
      cookieStore.Delete(AUTH_TOKEN_COOKIE);
      isLoggedIn := false;
      token := None;
      navigations := navigations + [LOGIN_ROUTE];
    }

    /** `getAuthHeaders()`: a bearer header exactly when the token is non-empty. */
    function GetAuthHeaders(): (headers: map<string, string>)
      reads this
      ensures Truthy(token) ==> headers == map["Authorization" := "Bearer " + token.value]
      ensures !Truthy(token) ==> headers == map[]
    {
      if token.Some? && token.value != "" then map["Authorization" := "Bearer " + token.value] else map[]
    }

    /** `getUserInfo()`, with `decode` standing for `jwtDecode` (`None` when it
        throws): the `userId` claim when it is non-empty, else `sub`. */
    function GetUserInfo(decode: string -> Option<Payload>): (info: Option<UserInfo>)
      reads this
      ensures !Truthy(token) ==> info == None
      ensures Truthy(token) && decode(token.value).None? ==> info == None
      ensures Truthy(token) && decode(token.value).Some? ==>
        var p := decode(token.value).value;
        && info.Some? && info.value.username == p.username
        && (Truthy(p.userId) ==> info.value.userId == p.userId)
        && (!Truthy(p.userId) ==> info.value.userId == p.sub)
    {
      if token.Some? && token.value != "" then
        match decode(token.value)
        case None => None
        case Some(p) => Some(UserInfo(if p.userId.Some? && p.userId.value != "" then p.userId else p.sub, p.username))
      else None
    }

    /** `getUsername()`: the user name of `getUserInfo`, or `null`. */
    function GetUsername(decode: string -> Option<Payload>): (name: Option<string>)
      reads this
      ensures GetUserInfo(decode).None? ==> name == None
      ensures GetUserInfo(decode).Some? ==> name == GetUserInfo(decode).value.username
    {
      match GetUserInfo(decode)
      case None => None
      case Some(info) => info.username
    }
  }

  /** The value of a claim kind as `jwtDecode` exposes it: the payload is read with
      `JSON.parse`, which keeps the last of several members with the same name. */
  function ClaimValue(claims: seq<(string, string)>, kind: string): (v: Option<string>)
    ensures v.Some? <==> exists k | 0 <= k < |claims| :: claims[k].0 == kind
    ensures v.Some? ==> exists k | 0 <= k < |claims| :: claims[k] == (kind, v.value) && forall j | k < j < |claims| :: claims[j].0 != kind
    decreases |claims|
  {
    if claims == [] then None
    else
      assert forall k | 1 <= k < |claims| :: claims[k] == claims[1..][k - 1];
      match ClaimValue(claims[1..], kind)
      case Some(later) => Some(later)
      case None => if claims[0].0 == kind then Some(claims[0].1) else None
  }

  /** A claim appended after the others decides its kind's value. */
  lemma {:induction false} ClaimValueLastWins(claims: seq<(string, string)>, kind: string, value: string)
    ensures ClaimValue(claims + [(kind, value)], kind) == Some(value)
    decreases |claims|
  {
    if claims != [] {
      assert (claims + [(kind, value)])[1..] == claims[1..] + [(kind, value)];
      ClaimValueLastWins(claims[1..], kind, value);
    }
  }

  /** The last claim of a kind, if any, among `claims`. */
  ghost predicate LastOfKind(claims: seq<(string, string)>, k: int, kind: string)
  {
    0 <= k < |claims| && claims[k].0 == kind && forall j | k < j < |claims| :: claims[j].0 != kind
  }

  /** The payload a token with these claims decodes to: each field is the value of
      the last claim of its kind, or absent when there is none. */
  function PayloadOf(claims: seq<(string, string)>): (p: Payload)
    ensures (forall k | 0 <= k < |claims| :: claims[k].0 != "userId") ==> p.userId == None
    ensures (forall k | 0 <= k < |claims| :: claims[k].0 != "sub") ==> p.sub == None
    ensures (forall k | 0 <= k < |claims| :: claims[k].0 != "username") ==> p.username == None
    ensures forall k | LastOfKind(claims, k, "userId") :: p.userId == Some(claims[k].1)
    ensures forall k | LastOfKind(claims, k, "sub") :: p.sub == Some(claims[k].1)
    ensures forall k | LastOfKind(claims, k, "username") :: p.username == Some(claims[k].1)
  {
    Payload(ClaimValue(claims, "userId"), ClaimValue(claims, "sub"), ClaimValue(claims, "username"))
  }

  /** The server's tokens carry only `sub` and `username`, so the client's user id
      always comes from the `sub` fallback. */
  lemma UserIdFallsBackToSub(service: AuthService, decode: string -> Option<Payload>, sub: string, username: string)
    requires Truthy(service.token)
    requires decode(service.token.value) == Some(PayloadOf([("sub", sub), ("username", username)]))
    ensures service.GetUserInfo(decode) == Some(UserInfo(Some(sub), Some(username)))
  {
    var claims := [("sub", sub), ("username", username)];
    assert ClaimValue(claims, "userId") == None;
  }
}
