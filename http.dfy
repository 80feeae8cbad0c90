/** Requests and responses of the bridge's HTTP surface, reduced to what it decides. */
module Http {
  import opened Wrappers

  datatype Request = Request(uri: string)

  /** The plugin routes a redirect can name, or a literal location. */
  datatype Target = LoginRoute | AuthorizeRoute | Location(url: string)

  datatype Response =
    /** A redirect with its status code and the query parameters attached to the route. */
    | Redirect(status: nat, target: Target, query: map<string, string>)
    /** The rendered login page with its template variables. */
    | LoginPage(pageTitle: string, application: string)
    /** A plain response with a status code and a body. */
    | Plain(status: nat, body: string)
    /** A response produced by the OAuth2 server library, passed through as it is. */
    | Library(status: nat, payload: string)
    /** An error no catch block handles, named by its class; the framework's error handler answers with status 500. */
    | Uncaught(error: string)

  /** The error PHP raises, under strict types, when a built-in string function is given null. */
  const TypeError := "TypeError"

  /** `$array['key']` on a parameter array: a missing key reads as null, used as the empty string. */
  function Param(q: map<string, string>, key: string): string {
    if key in q then q[key] else ""
  }

  /** `$array['key']` where a null matters: present or missing. */
  function Arg(q: map<string, string>, key: string): (r: Option<string>)
    ensures r.Some? <==> key in q
    ensures r.Some? ==> r.value == Param(q, key)
  {
    if key in q then Some(q[key]) else None
  }
}
