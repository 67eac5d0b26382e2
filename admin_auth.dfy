/**
 * Admin login and logout over the request's cookie store. A successful
 * login stores `admin_auth = base64("admin:<ms>")` for 24 hours and
 * redirects to the dashboard; the dashboard only asks whether that cookie
 * has a non-empty value.
 */
module AdminAuth {
  import opened Wrappers
  import opened Strings
  import opened AuthUtils

  const AuthCookieName: string := "admin_auth"

  /** The cookie lifetime in seconds, `60 * 60 * 24`. */
  const CookieMaxAge: int := 86_400

  /** A stored cookie: its value and its `maxAge` in seconds. */
  datatype Cookie = Cookie(value: string, maxAge: int)

  type CookieStore = map<string, Cookie>

  /** What `adminLogin` hands back: form state for the page, or a redirect. */
  datatype LoginResult =
    | LoginState(success: bool, message: string, passwordErrors: seq<string>)
    | RedirectTo(path: string)

  /**
   * zod's errors for the `password` field; `None` is a missing form field.
   * Both lists are non-empty exactly when the field fails the schema.
   */
  function PasswordErrors(password: Option<string>): (errors: seq<string>)
    ensures errors == [] <==> password.Some? && password.value != ""
  {
    match password
    case None => ["Expected string, received null"]
    case Some(p) => if p == "" then ["Password is required"] else []
  }

  /** The value written at a successful login at clock value `now`. */
  function LoginCookieValue(c: Crypto, now: nat): string {
    c.base64Encode("admin:" + NatToString(now))
  }

  /**
   * `adminLogin` on the cookie store `jar`, with `ADMIN_PASSWORD` taken from
   * `c.secret`: the result and the new cookie store.
   */
  function Login(jar: CookieStore, password: Option<string>, c: Crypto, now: nat): (out: (LoginResult, CookieStore))
    ensures PasswordErrors(password) != [] ==>
      out == (LoginState(false, "Please enter a password.", PasswordErrors(password)), jar)
    ensures PasswordErrors(password) == [] && c.secret == password ==>
      out == (RedirectTo("/admin"), jar[AuthCookieName := Cookie(LoginCookieValue(c, now), CookieMaxAge)])
    ensures PasswordErrors(password) == [] && c.secret != password ==>
      out == (LoginState(false, "Invalid password.", []), jar)
  {
    if PasswordErrors(password) != [] then
      (LoginState(false, "Please enter a password.", PasswordErrors(password)), jar)
    else if c.secret.Some? && password.value == c.secret.value then
      (RedirectTo("/admin"), jar[AuthCookieName := Cookie(LoginCookieValue(c, now), CookieMaxAge)])
    else
      (LoginState(false, "Invalid password.", []), jar)
  }

  /** `adminLogout`: the cookie is deleted and the browser sent to the login page. */
  function Logout(jar: CookieStore): (out: (string, CookieStore))
    ensures out.0 == "/admin/login"
    ensures AuthCookieName !in out.1
    ensures forall k :: k != AuthCookieName ==> (k in out.1 <==> k in jar)
  {
    ("/admin/login", jar - {AuthCookieName})
  }

  /** `isAdminAuthenticated`: a cookie named `admin_auth` with a non-empty value. */
  predicate IsAdminAuthenticated(jar: CookieStore): (ok: bool)
    ensures ok ==> AuthCookieName in jar && |jar[AuthCookieName].value| >= 1
    ensures AuthCookieName !in jar ==> !ok
  {
    AuthCookieName in jar && jar[AuthCookieName].value != ""
  }

  /** Only the cookie named `admin_auth` decides whether the admin is authenticated. */
  lemma AuthenticatedIgnoresOtherCookies(jar: CookieStore, name: string, cookie: Cookie)
    requires name != AuthCookieName
    ensures IsAdminAuthenticated(jar[name := cookie]) <==> IsAdminAuthenticated(jar)
  {
  }

  /** Without `ADMIN_PASSWORD` no password logs in, and the store is left alone. */
  lemma NoSecretNoLogin(jar: CookieStore, password: Option<string>, c: Crypto, now: nat)
    requires c.secret.None?
    ensures Login(jar, password, c, now).0 != RedirectTo("/admin")
    ensures Login(jar, password, c, now).1 == jar
  {
  }

  /** A successful login authenticates: base64 of a non-empty string is not empty. */
  lemma LoginAuthenticates(jar: CookieStore, password: Option<string>, c: Crypto, now: nat)
    requires Lawful(c)
    requires Login(jar, password, c, now).0.RedirectTo?
    ensures IsAdminAuthenticated(Login(jar, password, c, now).1)
  {
    var data := "admin:" + NatToString(now);
    assert c.base64Decode(c.base64Encode(data)) == data != "";
    assert c.base64Decode(c.base64Encode("")) == "";
  }

  /** After a logout nobody is authenticated, whatever the store held. */
  lemma LogoutDeauthenticates(jar: CookieStore)
    ensures !IsAdminAuthenticated(Logout(jar).1)
  {
  }

  /**
   * The login cookie decodes to `"admin:<ms>"`, two `:`-separated parts, so
   * `verifySessionToken` rejects it at every clock value.
   */
  lemma LoginCookieRejected(c: Crypto, now: nat, checkedAt: int)
    requires Lawful(c)
    ensures !VerifySessionToken(c, LoginCookieValue(c, now), checkedAt)
  {
    var ts := NatToString(now);
    assert forall i :: 0 <= i < |ts| ==> IsDigit(ts[i]);
    assert ':' !in ts;
    assert ':' !in "admin";
    assert Join(["admin", ts], ':') == "admin:" + ts;
    SplitJoin(["admin", ts], ':');
  }

  /**
   * The login as it is evidently meant to work: the cookie holds a session
   * token from `createSessionToken`. Without a secret no password matches,
   * so the token always exists when the passwords agree.
   */
  function SessionLogin(jar: CookieStore, password: Option<string>, c: Crypto, now: nat, randomHex: string): (out: (LoginResult, CookieStore))
    ensures out.0 == Login(jar, password, c, now).0
    ensures out.0.RedirectTo? ==>
      HasSecret(c) && out.1 == jar[AuthCookieName := Cookie(CreateSessionToken(c, now, randomHex).value, CookieMaxAge)]
    ensures !out.0.RedirectTo? ==> out.1 == jar
  {
    if PasswordErrors(password) == [] && c.secret == password then
      (RedirectTo("/admin"), jar[AuthCookieName := Cookie(CreateSessionToken(c, now, randomHex).value, CookieMaxAge)])
    else Login(jar, password, c, now)
  }

  /** The corrected login's cookie verifies for the next 24 hours. */
  lemma SessionLoginCookieAccepted(jar: CookieStore, password: Option<string>, c: Crypto, now: nat, randomHex: string, checkedAt: int)
    requires Lawful(c)
    requires forall i :: 0 <= i < |randomHex| ==> IsLowerHexDigit(randomHex[i])
    requires SessionLogin(jar, password, c, now, randomHex).0.RedirectTo?
    requires now <= checkedAt <= now + MaxAge
    ensures var store := SessionLogin(jar, password, c, now, randomHex).1;
      AuthCookieName in store && VerifySessionToken(c, store[AuthCookieName].value, checkedAt)
  {
    CreateThenVerify(c, now, randomHex, checkedAt);
  }

  /** The request's cookie store. */
  class CookieJar {
    var cookies: CookieStore

    constructor (initial: CookieStore)
      ensures cookies == initial
    {
      cookies := initial;
    }

    predicate Authenticated()
      reads this
    {
      IsAdminAuthenticated(cookies)
    }

    /** `adminLogin(prevState, formData)`. */
    method AdminLogin(password: Option<string>, c: Crypto, now: nat) returns (r: LoginResult)
      modifies this
      ensures (r, cookies) == Login(old(cookies), password, c, now)
      ensures !r.RedirectTo? ==> cookies == old(cookies)
    {
      var out := Login(cookies, password, c, now);
      r := out.0;
      cookies := out.1;
    }

    /** `adminLogout()`. */
    method AdminLogout() returns (redirect: string)
      modifies this
      ensures redirect == "/admin/login"
      ensures cookies == old(cookies) - {AuthCookieName}
      ensures !Authenticated()
    {
      var out := Logout(cookies);
      redirect := out.0;
      cookies := out.1;
    }
  }
}
