/**
 * The route guard of middleware.ts: requests for the two admin pages without
 * an `admin_session` cookie are redirected to /login; every other request
 * passes on unchanged. Cookies are a map from name to value.
 */
module Middleware {
  import opened Text

  const ViewAttendancePrefix: string := "/view-attendance"
  const SettingsPrefix: string := "/settings"
  const ApiPrefix: string := "/api/"
  const SessionCookie: string := "admin_session"
  const LoginPath: string := "/login"

  /** What the guard answers: a redirect to a path, or letting the request through. */
  datatype Outcome = RedirectTo(path: string) | PassThrough

  /** The path test of the `if`, prefixes compared as raw strings. */
  predicate Guarded(pathname: string) {
    (StartsWith(pathname, ViewAttendancePrefix) || StartsWith(pathname, SettingsPrefix))
    && !StartsWith(pathname, ApiPrefix)
  }

  /** The guard applied to one request's path and cookies. */
  function Middleware(pathname: string, cookies: map<string, string>): (o: Outcome)
    ensures o.RedirectTo? ==> o.path == LoginPath
    ensures o.RedirectTo? <==>
      (StartsWith(pathname, ViewAttendancePrefix) || StartsWith(pathname, SettingsPrefix))
      && SessionCookie !in cookies
  {
    ApiExclusionNeverFires(pathname);
    if Guarded(pathname) && SessionCookie !in cookies then RedirectTo(LoginPath) else PassThrough
  }

  /** Both guarded prefixes have a second character other than 'a', so no guarded path starts with '/api/'. */
  lemma ApiExclusionNeverFires(pathname: string)
    ensures StartsWith(pathname, ViewAttendancePrefix) || StartsWith(pathname, SettingsPrefix) ==>
            !StartsWith(pathname, ApiPrefix)
  {
    if StartsWith(pathname, ApiPrefix) {
      assert pathname[1] == ApiPrefix[1];
    }
  }

  /** Only the presence of the cookie matters; its value is never read. */
  lemma CookieValueIrrelevant(pathname: string, cookies: map<string, string>, value: string)
    requires SessionCookie in cookies
    ensures Middleware(pathname, cookies) == PassThrough
    ensures Middleware(pathname, cookies[SessionCookie := value]) == PassThrough
  {
  }

  /** Any path that merely begins with a guarded prefix is guarded, such as '/settingsX' or '/view-attendance-old'. */
  lemma RawPrefixGuarded(rest: string, cookies: map<string, string>)
    requires SessionCookie !in cookies
    ensures Middleware(SettingsPrefix + rest, cookies) == RedirectTo(LoginPath)
    ensures Middleware(ViewAttendancePrefix + rest, cookies) == RedirectTo(LoginPath)
  {
    assert (SettingsPrefix + rest)[..|SettingsPrefix|] == SettingsPrefix;
    assert (ViewAttendancePrefix + rest)[..|ViewAttendancePrefix|] == ViewAttendancePrefix;
  }

  /** A path outside both prefixes passes whatever the cookies, '/login' among them. */
  lemma OtherPathsPass(pathname: string, cookies: map<string, string>)
    requires !StartsWith(pathname, ViewAttendancePrefix) && !StartsWith(pathname, SettingsPrefix)
    ensures Middleware(pathname, cookies) == PassThrough
  {
  }

  /** The redirect target is not itself guarded, so a redirected request is not redirected again. */
  lemma LoginNotGuarded(cookies: map<string, string>)
    ensures Middleware(LoginPath, cookies) == PassThrough
  {
    assert LoginPath[1] != ViewAttendancePrefix[1] && LoginPath[1] != SettingsPrefix[1];
  }
}
