/**
 * The mutable state the bridge works on: the user agent's session, the Galette
 * services the bridge writes to (login, history, flash messages) and, per
 * request, the loaded configuration together with the cache directory.
 */
module Runtime {
  import opened Wrappers

  /** Galette's `Login` object as far as the bridge reads it: whether someone is logged in, and who. */
  datatype GaletteLogin = GaletteLogin(logged: bool, id: int)

  /** One line of Galette's history log: an action and its optional argument. */
  datatype HistoryEntry = HistoryEntry(action: string, argument: string)

  /**
   * The session. `isLoggedIn`, `userId` and `requestArgs` are the plugin's own
   * fields (`isLoggedIn`, `user_id`, `request_args`); `clients` holds
   * `$session->{client_id}->redirect_uri`; `login` is the Galette login stored
   * in the session. `userId` holds a member id or nothing (PHP's false, null
   * and unset alike); `isLoggedIn` is `None` until it is first written.
   */
  class Session {
    var isLoggedIn: Option<string>
    var userId: Option<int>
    var requestArgs: map<string, string>
    var clients: map<string, string>
    var login: GaletteLogin

    constructor ()
      ensures isLoggedIn == None && userId == None
      ensures requestArgs == map[] && clients == map[]
      ensures login == GaletteLogin(false, 0)
    {
      isLoggedIn := None;
      userId := None;
      requestArgs := map[];
      clients := map[];
      login := GaletteLogin(false, 0);
    }
  }

  /** The Galette services of the container: the current login, the history log and the flash messages. */
  class Galette {
    var login: GaletteLogin
    var history: seq<HistoryEntry>
    var flash: seq<string>

    constructor (login: GaletteLogin)
      ensures this.login == login && history == [] && flash == []
    {
      this.login := login;
      history := [];
      flash := [];
    }
  }

  /**
   * The configuration loaded for the current request (`Config::set` changes it
   * in memory only) and the cache directory, one redirect-URI file per client id.
   */
  class Store {
    var config: map<string, string>
    var cache: map<string, string>

    constructor (config: map<string, string>, cache: map<string, string>)
      ensures this.config == config && this.cache == cache
    {
      this.config := config;
      this.cache := cache;
    }
  }

  /**
   * PHP's password functions: `password_verify`, `password_hash` and `md5`,
   * all foreign, so parameters of the model.
   */
  datatype Passwords = Passwords(
    verify: (string, string) -> bool,
    hash: string -> string,
    md5: string -> string)

  /** A hash verifies exactly the password it was made from (bcrypt's 72-byte limit aside). */
  ghost predicate Sound(p: Passwords) {
    forall password, secret :: p.verify(password, p.hash(secret)) <==> password == secret
  }
}
