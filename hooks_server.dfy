/**
 * The server hook that runs before every request: it records the session read from the cookies and
 * decides whether the request is redirected to the login page, to the unauthorized page, to the
 * home page, or passed on to the route.  Throwing `redirect(302, location)` is the `Redirect`
 * outcome; calling `resolve(event)` is `Resolve`.
 */
module HooksServer {
  import opened Wrappers
  import opened JsText
  import opened Helper
  import opened Config

  /** `event.locals.sessionData`: the nine cookie values as read, and whether a token is present */
  datatype SessionData = SessionData(
    isAuthenticated: bool,
    token: Option<string>,
    username: Option<string>,
    userId: Option<string>,
    roleName: Option<string>,
    roleCode: Option<string>,
    orgId: Option<string>,
    blockId: Option<string>,
    blockName: Option<string>,
    orgName: Option<string>)

  datatype Outcome = Redirect(status: int, location: string) | Resolve

  /** The parts of the request the hook reads: its cookies, its URL and the URL's raw `search` text */
  datatype Request = Request(cookies: map<string, string>, url: Url, search: string)

  /** `cookies.get(name)`: `undefined` when the cookie is absent */
  function Cookie(cookies: map<string, string>, name: string): (r: Option<string>)
    ensures r.Some? <==> name in cookies
    ensures r.Some? ==> r.value == cookies[name]
  {
    if name in cookies then Some(cookies[name]) else None
  }

  /** The session object built from the cookies */
  function SessionOf(cookies: map<string, string>): (r: SessionData)
    ensures r.isAuthenticated <==> "access_token" in cookies && cookies["access_token"] != ""
    ensures r.token == Cookie(cookies, "access_token") && r.username == Cookie(cookies, "username")
    ensures r.userId == Cookie(cookies, "user_id") && r.roleName == Cookie(cookies, "role_name")
    ensures r.roleCode == Cookie(cookies, "role_code") && r.orgId == Cookie(cookies, "orgId")
    ensures r.blockId == Cookie(cookies, "blockId") && r.blockName == Cookie(cookies, "blockName")
    ensures r.orgName == Cookie(cookies, "orgName")
  {
    var token := Cookie(cookies, "access_token");
    SessionData(Truthy(token), token, Cookie(cookies, "username"), Cookie(cookies, "user_id"),
      Cookie(cookies, "role_name"), Cookie(cookies, "role_code"), Cookie(cookies, "orgId"),
      Cookie(cookies, "blockId"), Cookie(cookies, "blockName"), Cookie(cookies, "orgName"))
  }

  /** `pathname.startsWith("/apis")` */
  predicate IsApiPath(pathname: string) {
    "/apis" <= pathname
  }

  /** The route the access table is consulted with */
  function NormalizedPath(pathname: string): string {
    NormalizeRoute(Some(pathname)).value
  }

  /** The restriction test: a truthy role code whose table entry lists the normalised route */
  predicate Restricted(roleCode: Option<string>, pathname: string) {
    Truthy(roleCode) && RouteRestricted(roleCode.value, NormalizedPath(pathname))
  }

  /** `searchParams.has("redirectTo")` */
  predicate HasRedirectTo(url: Url) {
    ParamGet(url.params, "redirectTo").Some?
  }

  /** The redirect decision of `handle` for a session and a URL */
  function Decide(session: SessionData, url: Url, search: string): (r: Outcome)
    ensures !session.isAuthenticated ==>
              (r.Redirect? <==> !IsApiPath(url.pathname) && url.pathname != "/")
    ensures r.Redirect? && !session.isAuthenticated ==> r == Redirect(302, "/?redirectTo=" + url.pathname + search)
    ensures r == Redirect(302, "/unauthorized") <==>
              session.isAuthenticated && !IsApiPath(url.pathname) && Restricted(session.roleCode, url.pathname)
    ensures r == Redirect(302, "/home") <==>
              session.isAuthenticated && url.pathname == "/" && !HasRedirectTo(url) &&
              !Restricted(session.roleCode, url.pathname)
    ensures session.isAuthenticated && IsApiPath(url.pathname) ==> r == Resolve
  {
    if !session.isAuthenticated then
      if !IsApiPath(url.pathname) && url.pathname != "/" then
        var target := "/?redirectTo=" + url.pathname + search;
        assert target[1] == '?' && "/unauthorized"[1] != '?' && "/home"[1] != '?';
        Redirect(302, target)
      else
        Resolve
    else if !IsApiPath(url.pathname) && Restricted(session.roleCode, url.pathname) then
      Redirect(302, "/unauthorized")
    else if url.pathname == "/" && !HasRedirectTo(url) then
      Redirect(302, "/home")
    else
      Resolve
  }

  datatype Handled = Handled(sessionData: SessionData, outcome: Outcome)

  /** `handle({event, resolve})`: the session written to `event.locals` and the outcome */
  function Handle(req: Request): (r: Handled)
    ensures r.sessionData == SessionOf(req.cookies)
    ensures r.outcome == Decide(SessionOf(req.cookies), req.url, req.search)
  {
    var session := SessionOf(req.cookies);
    Handled(session, Decide(session, req.url, req.search))
  }

  /** A role code outside the access table, or no role code at all, is never sent to "/unauthorized". */
  lemma UnknownRoleNeverRestricted(req: Request)
    requires Cookie(req.cookies, "role_code").None? || Cookie(req.cookies, "role_code").value !in RoleTable
    ensures Handle(req).outcome != Redirect(302, "/unauthorized")
  {
    var session := SessionOf(req.cookies);
    assert !Restricted(session.roleCode, req.url.pathname);
  }

  lemma RootNormalizesToRoot()
    ensures NormalizedPath("/") == "/"
  {
    ShortHasNoUuid("/");
    assert "/"[1..] == [];
    assert ReplaceQIds("/") == "/" + ReplaceQIds([]);
  }

  /** An authenticated visit to the login page goes home exactly when no `redirectTo` is given. */
  lemma LoginPageSendsHome(session: SessionData, url: Url, search: string)
    requires session.isAuthenticated && url.pathname == "/"
    ensures Decide(session, url, search) == (if HasRedirectTo(url) then Resolve else Redirect(302, "/home"))
  {
    RootNormalizesToRoot();
    if session.roleCode.Some? {
      LoginPageNeverRestricted(session.roleCode.value);
    }
  }

  /** A `/Q<digits>` segment after a word segment is normalised, and the word is kept. */
  lemma {:induction false} WordThenQuestionId(w: string, d: string)
    requires NoSlash(w) && |w| >= 2 && !IsDigit(w[1])
    requires d != [] && (forall k :: 0 <= k < |d| ==> IsDigit(d[k])) && |w| + |d| < 34
    ensures NormalizedPath("/" + w + "/Q" + d) == "/" + w + "/:id"
  {
    var t := "/Q" + d;
    var s := "/" + w + t;
    ShortHasNoUuid(s);
    assert s[2..][0] == w[1];
    assert !QIdAt(s);
    assert s[1..] == w + t;
    QIdsSkipNoSlash(w, t);
    assert t[2..] == d;
    assert DigitRun(d) == |d|;
    assert QIdAt(t);
    assert t[2 + |d|..] == [];
    assert ReplaceQIds(t) == "/:id" + ReplaceQIds([]);
    assert ReplaceQIds(s) == [s[0]] + ReplaceQIds(s[1..]);
    assert ReplaceQIds(s) == "/" + w + "/:id";
    assert NormalizeRoute(Some(s)) == Some(ReplaceQIds(ReplaceUuids(s)));
    assert s == "/" + w + "/Q" + d;
  }

  /** A teacher opening question Q12 is sent to "/unauthorized": the id is normalised before the lookup. */
  lemma TeacherCannotOpenQuestion(session: SessionData, url: Url, search: string)
    requires session.isAuthenticated && session.roleCode == Some("teacher") && url.pathname == "/questions/Q12"
    ensures Decide(session, url, search) == Redirect(302, "/unauthorized")
  {
    var s := url.pathname;
    assert s == "/" + "questions" + "/Q" + "12";
    WordThenQuestionId("questions", "12");
    assert "/" + "questions" + "/:id" == "/questions/:id";
    assert NormalizedPath(s) == "/questions/:id";
    assert Truthy(session.roleCode);
    assert TeacherRoutes[13] == "/questions/:id";
    assert RouteRestricted("teacher", "/questions/:id");
    assert !IsApiPath(s) by { assert s[1] != "/apis"[1]; }
    assert Restricted(session.roleCode, s);
  }
}
