/**
 * `LoginController`: the login page (GET), the login form (POST) and logout.
 * It drives the session fields the bridge owns: `isLoggedIn`, `user_id` and
 * `request_args`, the authorization request captured before the login.
 */
module LoginController {
  import opened Wrappers
  import opened Strings
  import opened Config
  import opened Http
  import opened Runtime
  import opened Transliteration
  import opened UserHelper
  import Authentication

  /**
   * What the controller reaches through the container and cannot see into:
   * the Galette preferences, PHP's password functions, `Login::logIn`, the
   * member loaded by id, the ICU transliterator, `urldecode` followed by
   * `parse_url(…, PHP_URL_QUERY)` (no query, or a URL too malformed to parse,
   * gives null or false: `None`), and `parse_str` on a query string.
   */
  datatype Env = Env(
    prefs: Preferences,
    passwords: Passwords,
    logIn: LogIn,
    member: int -> Member,
    tr: Transliterator,
    urlQuery: string -> Option<string>,
    parseStr: string -> map<string, string>)

  const CheckCredentials := "Check your login / email or password."

  /** The parameters of the authorization request carried over to `/authorize`. */
  predicate IsContinuationKey(k: string) {
    k == "response_type" || k == "client_id" || k == "scope" || k == "state" || k == "redirect_uri"
  }

  /**
   * The query of the redirect to `/authorize`: the five parameters copied from
   * `request_args`. The URL builder drops a parameter whose value is null, so
   * one missing from `request_args` is missing here too.
   */
  function ContinuationQuery(args: map<string, string>): (q: map<string, string>)
    ensures forall k :: k in q <==> k in args && IsContinuationKey(k)
    ensures forall k :: k in q ==> q[k] == args[k]
  {
    map k | k in args && IsContinuationKey(k) :: args[k]
  }

  /** Nothing but the five parameters reaches `/authorize`: any other captured argument leaves the query as it was. */
  lemma ContinuationIgnoresOthers(args: map<string, string>, k: string, v: string)
    requires !IsContinuationKey(k)
    ensures ContinuationQuery(args[k := v]) == ContinuationQuery(args)
  {
    var q1 := ContinuationQuery(args[k := v]);
    var q2 := ContinuationQuery(args);
    assert q1.Keys == q2.Keys;
  }

  /**
   * The options the authorization check runs with: the client's configured
   * options and the requested scopes. A missing `scope` never gets here:
   * `explode` throws on it. A missing `client_id` reads as the empty client id.
   */
  function RequestOptions(config: Yaml, args: map<string, string>): seq<string>
    requires "scope" in args
  {
    MergeOptions(config, Param(args, "client_id"), Explode(' ', args["scope"]))
  }

  /** Each option once: the requested scopes, and the client's configured options when it has a configured value. */
  lemma RequestOptionsMembers(config: Yaml, args: map<string, string>)
    requires "scope" in args
    ensures NoDuplicates(RequestOptions(config, args))
    ensures var o := ClientOptions(config, Param(args, "client_id"));
      forall x :: x in RequestOptions(config, args) <==>
        x in Explode(' ', args["scope"]) || (Truthy(o) && x in OptionTokens(o))
  {
    MergeOptionsMembers(config, Param(args, "client_id"), Explode(' ', args["scope"]));
  }

  /** The POST fields `trim` cannot read: a missing `login`, or a missing `password` after a non-blank `login`. */
  predicate Unreadable(params: map<string, string>) {
    CredentialsUnreadable(Arg(params, "login"), Arg(params, "password"))
  }

  /** The application name of a client without a configured title. */
  const Untitled := "noname"

  /** `prepareVarsForm`: the application is the client's configured title, `noname` without one. */
  function FormPage(config: Yaml, args: map<string, string>): (r: Response)
    ensures r.LoginPage?
    ensures Param(args, "client_id") + ".title" !in config ==> r.application == Untitled
  {
    var application := Get(config, Param(args, "client_id") + ".title", Untitled);
    LoginPage("Please sign in for '" + application + "'", application)
  }

  /** A configured title names the application, trimmed like every configuration value. */
  lemma FormPageConfigured(config: Yaml, args: map<string, string>)
    requires Param(args, "client_id") + ".title" in config
    ensures FormPage(config, args).application == Trim(config[Param(args, "client_id") + ".title"])
  {
  }

  /** Where logout sends the user: the client's `redirect_logout`, or `/` without a client or without that setting. */
  function LogoutTarget(config: Yaml, args: map<string, string>): (r: string)
    ensures !Truthy(Param(args, "client_id")) ==> r == "/"
    ensures Param(args, "client_id") + ".redirect_logout" !in config ==> r == "/"
    ensures Truthy(Param(args, "client_id")) && Param(args, "client_id") + ".redirect_logout" in config ==>
      r == Trim(config[Param(args, "client_id") + ".redirect_logout"])
  {
    var clientId := Param(args, "client_id");
    if Truthy(clientId) then Get(config, clientId + ".redirect_logout", "/") else "/"
  }

  /** Logout forgets the captured request, so a second logout always lands on `/`. */
  lemma SecondLogoutGoesHome(config: Yaml)
    ensures LogoutTarget(config, map[]) == "/"
  {
  }

  class Controller {
    const session: Session
    const core: Galette
    const config: Yaml
    const env: Env

    constructor (session: Session, core: Galette, config: Yaml, env: Env)
      ensures this.session == session && this.core == core && this.config == config && this.env == env
    {
      this.session := session;
      this.core := core;
      this.config := config;
      this.env := env;
    }

    /**
     * `login` on GET: a truthy `redirect_url` replaces the captured request by
     * the query of that URL; then the login page is rendered. A URL without a
     * query hands null (or false) to `parse_str`, which throws under strict
     * types before `request_args` is written. Neither `isLoggedIn` nor
     * `user_id` is touched.
     */
    method LoginGet(query: map<string, string>) returns (r: Response)
      modifies session`requestArgs
      ensures var url := Param(query, "redirect_url");
        Truthy(url) && env.urlQuery(url).None? ==>
          r == Uncaught(TypeError) && session.requestArgs == old(session.requestArgs)
      ensures var url := Param(query, "redirect_url");
        Truthy(url) && env.urlQuery(url).Some? ==>
          session.requestArgs == env.parseStr(env.urlQuery(url).value) && r == FormPage(config, session.requestArgs)
      ensures !Truthy(Param(query, "redirect_url")) ==>
        session.requestArgs == old(session.requestArgs) && r == FormPage(config, session.requestArgs)
      ensures r.LoginPage? <==> !Truthy(Param(query, "redirect_url")) || env.urlQuery(Param(query, "redirect_url")).Some?
    {
      var redirectUrl := Param(query, "redirect_url");
      if Truthy(redirectUrl) {
        var urlQuery := env.urlQuery(redirectUrl);
        if urlQuery.None? {
          return Uncaught(TypeError);
        }
        session.requestArgs := env.parseStr(urlQuery.value);
      }
      r := FormPage(config, session.requestArgs);
    }

    /**
     * `login` on POST. `isLoggedIn` is `no` from the start. A field `trim`
     * cannot read throws before `user_id` is assigned; otherwise `user_id` is
     * the login result. With valid credentials, a missing `scope` throws in
     * `explode`. `isLoggedIn` turns `yes` only when the credential check and the
     * authorization check both pass. A member the authorization check refuses
     * is logged out of Galette again, but `user_id` keeps the id.
     */
    method LoginPost(params: map<string, string>) returns (r: Response)
      modifies session`isLoggedIn, session`userId, session`login, core`login, core`history, core`flash
      ensures Unreadable(params) ==>
        r == Uncaught(TypeError) && session.isLoggedIn == Some("no") && session.userId == old(session.userId) &&
        core.login == old(core.login) && session.login == old(session.login) &&
        core.flash == old(core.flash) && core.history == old(core.history)
      ensures !Unreadable(params) ==>
        session.userId == LoginResult(env.prefs, env.passwords, env.logIn, old(core.login), Param(params, "login"), Param(params, "password"))
      ensures !Unreadable(params) && session.userId.None? ==>
        var nick := Param(params, "login");
        var password := Param(params, "password");
        r == Redirect(301, LoginRoute, map[]) && session.isLoggedIn == Some("no") &&
        core.flash == old(core.flash) + LoginFlash(env.prefs, env.passwords, nick, password) + [CheckCredentials] &&
        core.login == LoginAfter(env.prefs, env.logIn, old(core.login), nick, password) &&
        core.history == old(core.history) + LoginHistory(env.prefs, env.passwords, env.logIn, old(core.login), nick, password) &&
        session.login == old(session.login)
      ensures !Unreadable(params) && session.userId.Some? && "scope" !in old(session.requestArgs) ==>
        r == Uncaught(TypeError) && session.isLoggedIn == Some("no") &&
        core.login == GaletteLogin(true, session.userId.value) && session.login == core.login &&
        core.flash == old(core.flash) && core.history == old(core.history) + [HistoryEntry("Login", "")]
      ensures !Unreadable(params) && session.userId.Some? && "scope" in old(session.requestArgs) ==>
        var id := session.userId.value;
        var d := Decide(env.member(id), RequestOptions(config, old(session.requestArgs)));
        if d.Some? then
          r == Redirect(301, LoginRoute, map[]) && session.isLoggedIn == Some("no") &&
          core.flash == old(core.flash) + [d.value.Message()] &&
          core.login == GaletteLogin(false, id) && session.login == core.login &&
          core.history == old(core.history) + [HistoryEntry("Login", "")] + [HistoryEntry("Logout", "")]
        else
          r == Redirect(302, AuthorizeRoute, ContinuationQuery(old(session.requestArgs))) &&
          session.isLoggedIn == Some("yes") && core.flash == old(core.flash) &&
          core.login == GaletteLogin(true, id) && session.login == core.login &&
          core.history == old(core.history) + [HistoryEntry("Login", "")]
      ensures Authentication.Admitted(session.isLoggedIn) <==>
        !Unreadable(params) && session.userId.Some? && "scope" in old(session.requestArgs) &&
        Decide(env.member(session.userId.value), RequestOptions(config, old(session.requestArgs))).None?
    {
      var nick := Param(params, "login");
      var password := Param(params, "password");
      var args := session.requestArgs;

      session.isLoggedIn := Some("no");
      if Unreadable(params) {
        return Uncaught(TypeError);
      }
      var uid := Login(env.prefs, env.passwords, env.logIn, core, session, nick, password);
      session.userId := uid;

      if uid.None? {
        core.flash := core.flash + [CheckCredentials];
        return Redirect(301, LoginRoute, map[]);
      }

      LoginResultIsLoggedId(env.prefs, env.passwords, env.logIn, old(core.login), nick, password);
      SuccessfulLoginTrail(env.prefs, env.passwords, env.logIn, old(core.login), nick, password);
      assert core.login == GaletteLogin(true, uid.value);
      assert core.flash == old(core.flash);
      assert core.history == old(core.history) + [HistoryEntry("Login", "")];
      if "scope" !in args {
        return Uncaught(TypeError);
      }
      var options := RequestOptions(config, args);
      r := CheckRights(uid.value, args, options);
    }

    /**
     * The second half of `login` on POST, once the credentials are accepted
     * and `scope` is present: the authorization check with the merged options, then either the logout
     * and the flashed reason, or `isLoggedIn := yes` and the way on to `/authorize`.
     */
    method CheckRights(id: int, args: map<string, string>, options: seq<string>) returns (r: Response)
      requires "scope" in args
      modifies session`isLoggedIn, session`login, core`login, core`history, core`flash
      ensures var d := Decide(env.member(id), options);
        if d.Some? then
          r == Redirect(301, LoginRoute, map[]) && core.flash == old(core.flash) + [d.value.Message()] &&
          session.isLoggedIn == old(session.isLoggedIn) &&
          core.login == GaletteLogin(false, old(core.login.id)) && session.login == core.login &&
          core.history == old(core.history) + [HistoryEntry("Logout", "")]
        else
          r == Redirect(302, AuthorizeRoute, ContinuationQuery(args)) && session.isLoggedIn == Some("yes") &&
          core.flash == old(core.flash) && core.login == old(core.login) && session.login == old(session.login) &&
          core.history == old(core.history)
    {
      var data := GetUserData(env.tr, env.member(id), options);
      if data.Failure? {
        UserHelper.Logout(core, session);
        core.flash := core.flash + [data.error.Message()];
        return Redirect(301, LoginRoute, map[]);
      }

      session.isLoggedIn := Some("yes");
      var urlParams := ContinuationQuery(args);
      return Redirect(302, AuthorizeRoute, urlParams);
    }

    /**
     * `logout`: Galette's logout, then the bridge forgets the user and the
     * captured request, and redirects to the previous client's logout URL.
     */
    method Logout() returns (r: Response)
      modifies core`login, core`history, session`login, session`userId, session`isLoggedIn, session`requestArgs
      ensures session.userId == None && session.isLoggedIn == Some("no") && session.requestArgs == map[]
      ensures core.login == GaletteLogin(false, old(core.login.id)) && session.login == core.login
      ensures core.history == old(core.history) + [HistoryEntry("Logout", "")]
      ensures r == Redirect(302, Location(LogoutTarget(config, old(session.requestArgs))), map[])
      ensures !Authentication.Admitted(session.isLoggedIn)
    {
      var args := session.requestArgs;
      UserHelper.Logout(core, session);
      session.userId := None;
      session.isLoggedIn := Some("no");
      var clientId := Param(session.requestArgs, "client_id");
      session.requestArgs := map[];

      var redirectLogout := "/";
      if Truthy(clientId) {
        redirectLogout := Get(config, clientId + ".redirect_logout", redirectLogout);
      }
      assert redirectLogout == LogoutTarget(config, args);
      return Redirect(302, Location(redirectLogout), map[]);
    }
  }
}
