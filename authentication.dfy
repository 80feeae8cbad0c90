/**
 * The `Authentication` middleware guarding the authorize route: a request goes
 * through only when the session says the user logged in through the bridge.
 */
module Authentication {
  import opened Wrappers
  import opened Http
  import opened Runtime

  /** The wrapped request handler: the rest of the middleware chain. */
  type Handler = Request -> Response

  /** The session flag reads `yes`; a missing flag reads as the empty string. */
  predicate Admitted(flag: Option<string>) {
    flag.GetOr("") == "yes"
  }

  /** The redirect to the login page, carrying the original request URI as `redirect_url`. */
  function LoginRedirect(request: Request): (r: Response)
    ensures r.Redirect? && r.status == 302 && r.target == LoginRoute
    ensures r.query.Keys == {"redirect_url"} && r.query["redirect_url"] == request.uri
  {
    Redirect(302, LoginRoute, map["redirect_url" := request.uri])
  }

  /**
   * `Authentication::__invoke`. It only reads the session; the handler is
   * consulted on the admitted path alone.
   */
  function Invoke(session: Session, request: Request, handler: Handler): (r: Response)
    reads session
    ensures Admitted(session.isLoggedIn) ==> r == handler(request)
    ensures !Admitted(session.isLoggedIn) ==> r == LoginRedirect(request)
  {
    if Admitted(session.isLoggedIn) then handler(request) else LoginRedirect(request)
  }

  /** A session that never set the flag, or set it to anything but `yes`, is sent to the login page. */
  lemma UnsetFlagRedirects(flag: Option<string>)
    requires flag.None? || flag.value != "yes"
    ensures !Admitted(flag)
  {
  }

  /** On the redirect path the handler plays no part: any two handlers give the same response. */
  lemma RedirectIgnoresHandler(session: Session, request: Request, h1: Handler, h2: Handler)
    requires !Admitted(session.isLoggedIn)
    ensures Invoke(session, request, h1) == Invoke(session, request, h2)
    ensures Invoke(session, request, h1).Redirect?
  {
  }
}
