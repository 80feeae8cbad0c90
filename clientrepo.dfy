/**
 * `ClientRepository`, the bridge's answer to the OAuth2 server's questions
 * about a client: which entity it is, and whether its secret is right.
 */
module ClientRepository {
  import opened Wrappers
  import opened Strings
  import opened Config
  import opened Runtime
  import opened RedirectBinding
  import Http

  /** The client entity handed to the OAuth2 server; a missing cache file leaves the redirect URI unset. */
  class ClientEntity {
    var identifier: string
    var name: string
    var redirectUri: Option<string>
    var confidential: bool

    constructor ()
      ensures identifier == "" && name == "" && redirectUri == None && !confidential
    {
      identifier := "";
      name := "";
      redirectUri := None;
      confidential := false;
    }
  }

  /** The configured `{client_id}.id`, defaulting to the client id itself (trimmed, as every configuration read is). */
  function Identifier(config: Yaml, clientId: string): (r: string)
    ensures clientId + ".id" !in config ==> r == Trim(clientId)
    ensures clientId + ".id" in config ==> r == Trim(config[clientId + ".id"])
  {
    Get(config, clientId + ".id", clientId)
  }

  /** `ClientRepository::getClientEntity`: a fresh, confidential entity, its redirect URI resolved session first. */
  method GetClientEntity(config: Yaml, session: Session, cache: map<string, string>, clientId: string)
    returns (client: ClientEntity)
    ensures fresh(client)
    ensures client.identifier == Identifier(config, clientId)
    ensures client.name == clientId
    ensures client.redirectUri == Resolve(session.clients, cache, clientId)
    ensures client.confidential
  {
    var identifier := Get(config, clientId + ".id", clientId);
    var redirectUri: Option<string>;
    if clientId in session.clients {
      redirectUri := Some(session.clients[clientId]);
    } else if clientId in cache {
      redirectUri := Some(cache[clientId]);
    } else {
      redirectUri := None;
    }
    client := new ClientEntity();
    client.identifier := identifier;
    client.name := clientId;
    client.redirectUri := redirectUri;
    client.confidential := true;
  }

  /** A `{client_id}.redirect_uri` key never ends like a `{client_id}.id` key. */
  lemma SlotKeyIsNotIdKey(c1: string, c2: string)
    ensures SlotKey(c1) != c2 + ".id"
  {
    var s := SlotKey(c1);
    assert s[|s| - 1] == 'i';
    assert (c2 + ".id")[|c2 + ".id"| - 1] == 'd';
  }

  /**
   * The configured redirect URIs play no part in the entity: rewriting any
   * client's `redirect_uri` slot leaves the identifier of every client as it
   * was, and the redirect URI does not read the configuration at all.
   */
  lemma RedirectConfigUnused(config: Yaml, c1: string, uri: string, clientId: string)
    ensures Identifier(config[SlotKey(c1) := uri], clientId) == Identifier(config, clientId)
  {
    SlotKeyIsNotIdKey(c1, clientId);
  }

  /**
   * `ClientRepository::validateClient`: the id must hold `galette_`, and the
   * secret must match the global password. The OAuth2 server passes null for a
   * request without a secret; `password_verify` throws on it under strict
   * types, but only once the id has passed the `galette_` test.
   */
  function ValidateClient(config: Yaml, pw: Passwords, clientId: string, secret: Option<string>): (r: Result<bool, string>)
    ensures r.Failure? <==> Contains(clientId, "galette_") && secret.None?
    ensures r.Failure? ==> r.error == Http.TypeError
    ensures !Contains(clientId, "galette_") ==> r == Success(false)
    ensures r == Success(true) ==> exists i: nat :: OccursAt(clientId, "galette_", i)
  {
    if !Contains(clientId, "galette_") then Success(false)
    else if secret.None? then Failure(Http.TypeError)
    else Success(pw.verify(secret.value, pw.hash(Get(config, "global.password", ""))))
  }

  /** With sound password functions, a secret is accepted exactly for a `galette_` client and the global password. */
  lemma ValidateClientIff(config: Yaml, pw: Passwords, clientId: string, secret: string)
    requires Sound(pw)
    ensures ValidateClient(config, pw, clientId, Some(secret)) ==
      Success(Contains(clientId, "galette_") && secret == Get(config, "global.password", ""))
  {
    var global := Get(config, "global.password", "");
    assert pw.verify(secret, pw.hash(global)) <==> secret == global;
  }

  /** One secret for all clients: two `galette_` clients answer alike for any secret, or its absence. */
  lemma OneSecretForAll(config: Yaml, pw: Passwords, c1: string, c2: string, secret: Option<string>)
    requires Contains(c1, "galette_") && Contains(c2, "galette_")
    ensures ValidateClient(config, pw, c1, secret) == ValidateClient(config, pw, c2, secret)
  {
  }
}
