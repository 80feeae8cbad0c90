/**
 * The redirect-URI binding: `authorize` records the redirect URI a client asked
 * for, and `ClientRepository::getClientEntity` later reads it back. The state is
 * three maps: the session's per-client entries, the configuration loaded for
 * the request, and the cache directory (one file per client id).
 */
module RedirectBinding {
  import opened Wrappers
  import opened Strings
  import opened Config
  import opened Http

  datatype Binding = Binding(clients: map<string, string>, config: Yaml, cache: map<string, string>)

  /** The configuration key `{client_id}.redirect_uri`. */
  function SlotKey(clientId: string): string {
    clientId + ".redirect_uri"
  }

  /** The configuration holds no redirect URI for the client (missing, or blank once trimmed). */
  predicate SlotEmpty(config: Yaml, clientId: string) {
    Get(config, SlotKey(clientId), "") == ""
  }

  /**
   * The bind step at the start of `authorize`. Without a `redirect_uri` in the
   * query nothing changes. With one, the session entry of the client is always
   * set to it; the configuration slot and the cache file are set to it only
   * when the slot is empty, and then both together.
   */
  function Bind(b: Binding, query: map<string, string>): (r: Binding)
    ensures "redirect_uri" !in query ==> r == b
    ensures "redirect_uri" in query ==>
      var cid := Param(query, "client_id");
      var uri := query["redirect_uri"];
      r.clients == b.clients[cid := uri] &&
      (SlotEmpty(b.config, cid) ==> r.config == b.config[SlotKey(cid) := uri] && r.cache == b.cache[cid := uri]) &&
      (!SlotEmpty(b.config, cid) ==> r.config == b.config && r.cache == b.cache)
  {
    if "redirect_uri" !in query then b
    else
      var cid := Param(query, "client_id");
      var uri := query["redirect_uri"];
      var clients := b.clients[cid := uri];
      if SlotEmpty(b.config, cid) then
        Binding(clients, b.config[SlotKey(cid) := uri], b.cache[cid := uri])
      else
        Binding(clients, b.config, b.cache)
  }

  /**
   * The resolve step of `getClientEntity`: the session entry when the session
   * has one for the client, otherwise the cache file, which may be missing.
   * The configuration is not consulted.
   */
  function Resolve(clients: map<string, string>, cache: map<string, string>, clientId: string): (r: Option<string>)
    ensures r.Some? <==> clientId in clients || clientId in cache
    ensures clientId in clients ==> r == Some(clients[clientId])
    ensures clientId !in clients && clientId in cache ==> r == Some(cache[clientId])
  {
    if clientId in clients then Some(clients[clientId])
    else if clientId in cache then Some(cache[clientId])
    else None
  }

  /** Within the session that bound it, the client resolves to the URI just bound. */
  lemma ResolveAfterBind(b: Binding, query: map<string, string>)
    requires "redirect_uri" in query
    ensures var r := Bind(b, query);
      Resolve(r.clients, r.cache, Param(query, "client_id")) == Some(query["redirect_uri"])
  {
  }

  /**
   * From another session (no entry of its own), the client resolves to the
   * bound URI exactly when the configuration slot was empty at bind time, or
   * the cache already held that same URI.
   */
  lemma ResolveFromOtherSession(b: Binding, query: map<string, string>)
    requires "redirect_uri" in query
    ensures var cid := Param(query, "client_id");
      var r := Bind(b, query);
      Resolve(map[], r.cache, cid) == Some(query["redirect_uri"]) <==>
        SlotEmpty(b.config, cid) || (cid in b.cache && b.cache[cid] == query["redirect_uri"])
  {
    var cid := Param(query, "client_id");
    var r := Bind(b, query);
    if !SlotEmpty(b.config, cid) {
      assert r.cache == b.cache;
    }
  }

  /**
   * The configuration is reloaded from its file on every request, so a second
   * request for the same client with an empty slot overwrites the cache file:
   * the last binder wins, for every session without an entry of its own.
   */
  lemma LastBinderWins(b: Binding, clients: map<string, string>, q1: map<string, string>, q2: map<string, string>)
    requires "redirect_uri" in q1 && "redirect_uri" in q2
    requires Param(q1, "client_id") == Param(q2, "client_id")
    requires SlotEmpty(b.config, Param(q1, "client_id"))
    ensures var first := Bind(b, q1);
      var second := Bind(Binding(clients, b.config, first.cache), q2);
      Resolve(map[], second.cache, Param(q1, "client_id")) == Some(q2["redirect_uri"])
  {
  }
}
