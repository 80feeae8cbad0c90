/**
 * `AuthorizationController::authorize`: bind the redirect URI the client asked
 * for, then hand the request to the OAuth2 server with the session's user and
 * an approval, and turn whatever the server throws into a response.
 */
module AuthorizationController {
  import opened Wrappers
  import opened Config
  import opened Http
  import opened Runtime
  import opened RedirectBinding

  /**
   * What the OAuth2 server can throw: its own exception, which knows its
   * response; any other `Exception`; or a PHP `Error` (a `TypeError`, say),
   * which is not an `Exception` and which neither catch block handles.
   */
  datatype Thrown =
    | OAuthServerError(status: nat, payload: string)
    | OtherException(message: string)
    | PhpError(name: string)

  /** The authorization request the server validated, with the user and the approval the controller sets. */
  datatype AuthorizationRequest = AuthorizationRequest(clientId: string, scopes: seq<string>, user: Option<int>, approved: bool)

  /**
   * The server's two steps. `validateAuthorizationRequest` reads the query and,
   * through `ClientRepository::getClientEntity`, the client's redirect URI as
   * the repository resolves it at that moment (missing when neither the session
   * nor the cache holds one). `completeAuthorizationRequest` works on the
   * request it is handed, which already carries the client.
   */
  datatype Server = Server(
    validate: (map<string, string>, Option<string>) -> Result<AuthorizationRequest, Thrown>,
    complete: AuthorizationRequest -> Result<Response, Thrown>)

  /**
   * The catch blocks: a server exception renders its own response, any other
   * `Exception` a 500 with the message as body; an `Error` escapes them.
   */
  function ErrorResponse(e: Thrown): (r: Response)
    ensures r.Plain? <==> e.OtherException?
    ensures e.OAuthServerError? ==> r == Library(e.status, e.payload)
    ensures e.OtherException? ==> r == Plain(500, e.message)
    ensures e.PhpError? ==> r == Uncaught(e.name)
  {
    match e
    case OAuthServerError(status, payload) => Library(status, payload)
    case OtherException(message) => Plain(500, message)
    case PhpError(name) => Uncaught(name)
  }

  /** The validated request with the session's user set and the approval given (the consent screen is not implemented). */
  function Approve(req: AuthorizationRequest, userId: Option<int>): (r: AuthorizationRequest)
    ensures r.user == userId && r.approved
    ensures r.clientId == req.clientId && r.scopes == req.scopes
  {
    req.(user := userId, approved := true)
  }

  /** The redirect URI `getClientEntity` resolves for the query's client in a given binding state. */
  function ClientUri(b: Binding, query: map<string, string>): Option<string> {
    Resolve(b.clients, b.cache, Param(query, "client_id"))
  }

  /** The response of `authorize` once the binding is done, the repository resolving `clientUri`. */
  function Outcome(server: Server, query: map<string, string>, clientUri: Option<string>, userId: Option<int>): Response {
    match server.validate(query, clientUri)
    case Failure(e) => ErrorResponse(e)
    case Success(req) =>
      match server.complete(Approve(req, userId))
      case Success(resp) => resp
      case Failure(e) => ErrorResponse(e)
  }

  /** Whatever the server does with the request, it only ever completes an approved request for the session's user. */
  lemma OnlyApprovedRequestsComplete(server: Server, query: map<string, string>, clientUri: Option<string>, userId: Option<int>)
    requires server.validate(query, clientUri).Success?
    ensures var handed := Approve(server.validate(query, clientUri).value, userId);
      handed.approved && handed.user == userId &&
      Outcome(server, query, clientUri, userId) ==
        (if server.complete(handed).Success? then server.complete(handed).value
         else ErrorResponse(server.complete(handed).error))
  {
  }

  /** A request the server rejects is never completed: the completion step plays no part in the response. */
  lemma RejectedNeverCompletes(s1: Server, s2: Server, query: map<string, string>, clientUri: Option<string>, userId: Option<int>)
    requires s1.validate(query, clientUri) == s2.validate(query, clientUri) && s1.validate(query, clientUri).Failure?
    ensures Outcome(s1, query, clientUri, userId) == Outcome(s2, query, clientUri, userId) ==
      ErrorResponse(s1.validate(query, clientUri).error)
  {
  }

  /**
   * With a `redirect_uri` in the query, the server is shown that very URI as the
   * client's registered one, whatever earlier requests left behind: the bind
   * runs first, and the session entry it writes is what the repository reads.
   */
  lemma ServerSeesQueryUri(server: Server, b: Binding, query: map<string, string>, userId: Option<int>)
    requires "redirect_uri" in query
    ensures ClientUri(Bind(b, query), query) == Some(query["redirect_uri"])
    ensures Outcome(server, query, ClientUri(Bind(b, query), query), userId) ==
      Outcome(server, query, Some(query["redirect_uri"]), userId)
  {
    ResolveAfterBind(b, query);
  }

  /**
   * Without a `redirect_uri` in the query, the server is shown what the
   * session, or else the cache file, holds from an earlier request, if any:
   * two sessions sending the same query can get different answers.
   */
  lemma ServerSeesLeftoverUri(b: Binding, query: map<string, string>)
    requires "redirect_uri" !in query
    ensures var cid := Param(query, "client_id");
      ClientUri(Bind(b, query), query) ==
        if cid in b.clients then Some(b.clients[cid])
        else if cid in b.cache then Some(b.cache[cid])
        else None
  {
  }

  class Controller {
    const session: Session
    const store: Store

    constructor (session: Session, store: Store)
      ensures this.session == session && this.store == store
    {
      this.session := session;
      this.store := store;
    }

    /** The session's client entries, the request's configuration and the cache directory, taken together. */
    function State(): Binding
      reads session, store
    {
      Binding(session.clients, store.config, store.cache)
    }

    /**
     * `AuthorizationController::authorize`. The binding is written before the
     * server is consulted, so it stands even when the server rejects the request,
     * and the server sees the redirect URI resolved from the new state.
     */
    method Authorize(query: map<string, string>, server: Server) returns (r: Response)
      modifies session`clients, store`config, store`cache
      ensures State() == Bind(old(State()), query)
      ensures r == Outcome(server, query, ClientUri(State(), query), session.userId)
    {
      if "redirect_uri" in query {
        var clientId := Param(query, "client_id");
        var key := clientId + ".redirect_uri";
        session.clients := session.clients[clientId := query["redirect_uri"]];
        var v := query["redirect_uri"];
        if Get(store.config, key, "") == "" {
          store.config := store.config[key := v];
          store.cache := store.cache[clientId := v];
        }
      }

      // `getClientEntity`, called inside the server's validation, reads the binding back.
      var clientUri := Resolve(session.clients, store.cache, Param(query, "client_id"));
      match server.validate(query, clientUri) {
        case Failure(e) =>
          return ErrorResponse(e);
        case Success(authRequest) =>
          var user := session.userId;
          var authorized := true;
          var handed := authRequest.(user := user, approved := authorized);
          match server.complete(handed) {
            case Success(resp) =>
              return resp;
            case Failure(e) =>
              return ErrorResponse(e);
          }
      }
    }
  }
}
