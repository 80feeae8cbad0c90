/**
 * `UserHelper`: the credential gate (`login`, `logout`), the authorization
 * decision and claims mapping of `getUserData`, the option merge of
 * `mergeOptions` and the accent stripping of `stripAccents`.
 *
 * Galette itself (its `Login` object, the member loaded from the database, the
 * password functions) and the ICU transliterator are foreign: they enter as
 * parameters.
 */
module UserHelper {
  import opened Wrappers
  import opened Strings
  import opened Transliteration
  import opened Config
  import opened Runtime

  // ===========================================================================
  // The credential gate

  /** The superadmin account of the Galette preferences: `pref_admin_login`, `pref_admin_pass`. */
  datatype Preferences = Preferences(adminLogin: string, adminPass: string)

  /** Galette's `Login::logIn`: the member id when the credentials match, nothing otherwise. */
  type LogIn = (string, string) -> Option<int>

  /** Either credential is empty once trimmed: it holds trim characters only (see `BlankIsTrimEmpty`). */
  predicate Blank(nick: string, password: string) {
    OnlyTrimChars(nick) || OnlyTrimChars(password)
  }

  /** `Blank` is the test `trim($nick) === '' || trim($password) === ''`. */
  lemma BlankIsTrimEmpty(nick: string, password: string)
    ensures Blank(nick, password) <==> Trim(nick) == "" || Trim(password) == ""
  {
    TrimEmptyIff(nick);
    TrimEmptyIff(password);
  }

  /**
   * Credentials `trim` cannot read: under strict types `trim(null)` throws a
   * `TypeError`. The nick is trimmed first, and the password only when the nick
   * is not blank, since the `||` short-circuits.
   */
  predicate CredentialsUnreadable(nick: Option<string>, password: Option<string>) {
    nick.None? || (Trim(nick.value) != "" && password.None?)
  }

  /** The superadmin login together with its password, checked as bcrypt first and as a legacy md5 hash second. */
  predicate IsSuperAdmin(prefs: Preferences, pw: Passwords, nick: string, password: string) {
    nick == prefs.adminLogin &&
    (pw.verify(password, prefs.adminPass) || pw.md5(password) == prefs.adminPass)
  }

  /**
   * The Galette login after `UserHelper::login`. `logIn` is tried only for a
   * non-blank attempt on another account than the superadmin's, and a failed
   * `logIn` leaves the login as it was.
   */
  function LoginAfter(prefs: Preferences, logIn: LogIn, before: GaletteLogin, nick: string, password: string): (r: GaletteLogin)
    ensures r != before ==>
      !Blank(nick, password) && nick != prefs.adminLogin && r.logged && logIn(nick, password) == Some(r.id)
    ensures !Blank(nick, password) && nick != prefs.adminLogin && logIn(nick, password).Some? ==>
      r == GaletteLogin(true, logIn(nick, password).value)
    ensures logIn(nick, password).None? ==> r == before
  {
    if Blank(nick, password) || nick == prefs.adminLogin then before
    else match logIn(nick, password)
      case Some(id) => GaletteLogin(true, id)
      case None => before
  }

  /** What `UserHelper::login` returns: the logged-in id, or nothing (PHP's false). */
  function LoginResult(prefs: Preferences, pw: Passwords, logIn: LogIn, before: GaletteLogin, nick: string, password: string)
    : (r: Option<int>)
    ensures r.Some? ==> !Blank(nick, password) && !IsSuperAdmin(prefs, pw, nick, password)
  {
    if Blank(nick, password) || IsSuperAdmin(prefs, pw, nick, password) then None
    else
      var after := LoginAfter(prefs, logIn, before, nick, password);
      if after.logged then Some(after.id) else None
  }

  const SuperAdminRefused := "Cannot OAuth login from superadmin account!"

  /** The flash messages `UserHelper::login` adds: the superadmin refusal, and nothing else. */
  function LoginFlash(prefs: Preferences, pw: Passwords, nick: string, password: string): seq<string> {
    if !Blank(nick, password) && IsSuperAdmin(prefs, pw, nick, password) then [SuperAdminRefused] else []
  }

  /** The history lines `UserHelper::login` adds: none for a blank or superadmin attempt, else the outcome. */
  function LoginHistory(prefs: Preferences, pw: Passwords, logIn: LogIn, before: GaletteLogin, nick: string, password: string)
    : seq<HistoryEntry>
  {
    if Blank(nick, password) || IsSuperAdmin(prefs, pw, nick, password) then []
    else if LoginResult(prefs, pw, logIn, before, nick, password).Some? then [HistoryEntry("Login", "")]
    else [HistoryEntry("Authentication failed", nick)]
  }

  /** `UserHelper::login`. */
  method Login(prefs: Preferences, pw: Passwords, logIn: LogIn, core: Galette, session: Session, nick: string, password: string)
    returns (r: Option<int>)
    modifies core`login, core`flash, core`history, session`login
    ensures r == LoginResult(prefs, pw, logIn, old(core.login), nick, password)
    ensures core.login == LoginAfter(prefs, logIn, old(core.login), nick, password)
    ensures session.login == if r.Some? then core.login else old(session.login)
    ensures core.flash == old(core.flash) + LoginFlash(prefs, pw, nick, password)
    ensures core.history == old(core.history) + LoginHistory(prefs, pw, logIn, old(core.login), nick, password)
  {
    ghost var before := core.login;
    if Blank(nick, password) {
      RefusedOutcome(prefs, pw, logIn, before, nick, password);
      AppendNothing(core.flash);
      AppendNothing(core.history);
      return None;
    }
    if nick == prefs.adminLogin {
      var superAdmin := pw.verify(password, prefs.adminPass);
      if !superAdmin {
        superAdmin := pw.md5(password) == prefs.adminPass;
      }
      if superAdmin {
        assert IsSuperAdmin(prefs, pw, nick, password);
        RefusedOutcome(prefs, pw, logIn, before, nick, password);
        AppendNothing(core.history);
        core.flash := core.flash + [SuperAdminRefused];
        return None;
      }
      assert core.login == before == LoginAfter(prefs, logIn, before, nick, password);
    } else {
      match logIn(nick, password)
      case Some(id) => core.login := GaletteLogin(true, id);
      case None =>
      assert core.login == LoginAfter(prefs, logIn, before, nick, password);
    }
    assert !IsSuperAdmin(prefs, pw, nick, password);
    AttemptOutcome(prefs, pw, logIn, before, nick, password);
    AppendNothing(core.flash);
    if core.login.logged {
      session.login := core.login;
      core.history := core.history + [HistoryEntry("Login", "")];
      return Some(core.login.id);
    }
    core.history := core.history + [HistoryEntry("Authentication failed", nick)];
    return None;
  }

  lemma AppendNothing<T>(s: seq<T>)
    ensures s + [] == s
  {
  }

  /** A blank or superadmin attempt changes nothing but the flash, which warns the superadmin alone. */
  lemma RefusedOutcome(prefs: Preferences, pw: Passwords, logIn: LogIn, before: GaletteLogin, nick: string, password: string)
    requires Blank(nick, password) || IsSuperAdmin(prefs, pw, nick, password)
    ensures LoginResult(prefs, pw, logIn, before, nick, password) == None
    ensures LoginAfter(prefs, logIn, before, nick, password) == before
    ensures LoginHistory(prefs, pw, logIn, before, nick, password) == []
    ensures LoginFlash(prefs, pw, nick, password) == if Blank(nick, password) then [] else [SuperAdminRefused]
  {
  }

  /** Once `logIn` has had its turn, `isLogged()` alone decides the result and the history line. */
  lemma AttemptOutcome(prefs: Preferences, pw: Passwords, logIn: LogIn, before: GaletteLogin, nick: string, password: string)
    requires !Blank(nick, password) && !IsSuperAdmin(prefs, pw, nick, password)
    ensures var after := LoginAfter(prefs, logIn, before, nick, password);
      LoginFlash(prefs, pw, nick, password) == [] &&
      LoginResult(prefs, pw, logIn, before, nick, password) == (if after.logged then Some(after.id) else None) &&
      LoginHistory(prefs, pw, logIn, before, nick, password) ==
        (if after.logged then [HistoryEntry("Login", "")] else [HistoryEntry("Authentication failed", nick)])
  {
  }

  /** An empty nick or password is refused, whatever the login state. */
  lemma BlankRefused(prefs: Preferences, pw: Passwords, logIn: LogIn, before: GaletteLogin, nick: string, password: string)
    requires forall k :: 0 <= k < |nick| ==> IsTrimChar(nick[k])
    ensures LoginResult(prefs, pw, logIn, before, nick, password) == None
    ensures LoginAfter(prefs, logIn, before, nick, password) == before
  {
    TrimEmptyIff(nick);
  }

  /**
   * The superadmin login never reaches `logIn`, and with the right password
   * (bcrypt or md5) it is refused.
   */
  lemma SuperAdminNeverLogsIn(prefs: Preferences, pw: Passwords, logIn: LogIn, before: GaletteLogin, password: string)
    ensures LoginAfter(prefs, logIn, before, prefs.adminLogin, password) == before
    ensures pw.verify(password, prefs.adminPass) || pw.md5(password) == prefs.adminPass ==>
      LoginResult(prefs, pw, logIn, before, prefs.adminLogin, password) == None
  {
  }

  /** The result is an id exactly when the login reports logged-in after the attempt, and then it is that login's id. */
  lemma LoginResultIsLoggedId(prefs: Preferences, pw: Passwords, logIn: LogIn, before: GaletteLogin, nick: string, password: string)
    ensures var after := LoginAfter(prefs, logIn, before, nick, password);
      LoginResult(prefs, pw, logIn, before, nick, password).Some? <==>
        !Blank(nick, password) && !IsSuperAdmin(prefs, pw, nick, password) && after.logged
    ensures var after := LoginAfter(prefs, logIn, before, nick, password);
      LoginResult(prefs, pw, logIn, before, nick, password).Some? ==>
        LoginResult(prefs, pw, logIn, before, nick, password).value == after.id
  {
  }

  /**
   * Credentials `logIn` accepts, for another account than the superadmin's, log
   * Galette in with that id and make `login` return it.
   */
  lemma AcceptedCredentialsLogIn(prefs: Preferences, pw: Passwords, logIn: LogIn, before: GaletteLogin,
                                 nick: string, password: string, id: int)
    requires !Blank(nick, password) && nick != prefs.adminLogin && logIn(nick, password) == Some(id)
    ensures LoginAfter(prefs, logIn, before, nick, password) == GaletteLogin(true, id)
    ensures LoginResult(prefs, pw, logIn, before, nick, password) == Some(id)
  {
  }

  /**
   * A failed `logIn` leaves Galette's login as it was, so an attempt with wrong
   * credentials, on any account, returns the previous login's id when Galette
   * was already logged in.
   */
  lemma FailedLogInKeepsPrevious(prefs: Preferences, pw: Passwords, logIn: LogIn, before: GaletteLogin,
                                 nick: string, password: string)
    requires !Blank(nick, password) && !IsSuperAdmin(prefs, pw, nick, password) && logIn(nick, password).None?
    ensures LoginResult(prefs, pw, logIn, before, nick, password) == if before.logged then Some(before.id) else None
  {
  }

  /**
   * A missing password that `trim` never reads comes with a blank nick: the
   * attempt fails as blank, whatever the password would have been.
   */
  lemma MissingPasswordIsBlank(prefs: Preferences, pw: Passwords, logIn: LogIn, before: GaletteLogin,
                               nick: Option<string>, password: Option<string>, other: string)
    requires !CredentialsUnreadable(nick, password) && password.None?
    ensures LoginResult(prefs, pw, logIn, before, nick.value, other) == None
    ensures LoginAfter(prefs, logIn, before, nick.value, other) == before
  {
  }

  /** A successful login flashes nothing and records exactly one `Login` line. */
  lemma SuccessfulLoginTrail(prefs: Preferences, pw: Passwords, logIn: LogIn, before: GaletteLogin, nick: string, password: string)
    requires LoginResult(prefs, pw, logIn, before, nick, password).Some?
    ensures LoginFlash(prefs, pw, nick, password) == []
    ensures LoginHistory(prefs, pw, logIn, before, nick, password) == [HistoryEntry("Login", "")]
  {
  }

  /**
   * `UserHelper::logout`. What Galette's `Login::logOut` does to the stored id
   * is not part of this model; keeping it is a modelling choice, and nothing
   * here reads the id of a login that is not logged.
   */
  method Logout(core: Galette, session: Session)
    modifies core`login, core`history, session`login
    ensures core.login == GaletteLogin(false, old(core.login.id))
    ensures session.login == core.login
    ensures core.history == old(core.history) + [HistoryEntry("Logout", "")]
  {
    core.login := GaletteLogin(false, core.login.id);
    session.login := core.login;
    core.history := core.history + [HistoryEntry("Logout", "")];
  }

  // ===========================================================================
  // stripAccents

  /** `UserHelper::stripAccents`: the transliteration, lower-cased. */
  function StripAccents(tr: Transliterator, s: string): (r: string)
    ensures IsLower(r) && |r| == |tr(s)|
  {
    ToLower(tr(s))
  }

  lemma {:induction false} LowerKeepsKept(s: string)
    requires AllKept(s)
    ensures AllKept(ToLower(s))
  {
    forall k | 0 <= k < |s| ensures Kept(ToLower(s)[k]) {
      assert ToLower(s)[k] == LowerChar(s[k]);
    }
  }

  /** Stripping accents twice is stripping them once, for a transliterator with the guarantees of the ICU rule. */
  lemma StripAccentsIdempotent(tr: Transliterator, s: string)
    requires IcuLike(tr)
    ensures StripAccents(tr, StripAccents(tr, s)) == StripAccents(tr, s)
  {
    var t := StripAccents(tr, s);
    assert AllKept(tr(s));
    LowerKeepsKept(tr(s));
    assert tr(t) == t;
  }

  /** The repository's test vector: "çéè-ßØ" strips to "cee-sso". */
  lemma StripAccentsTestVector()
    ensures StripAccents(LatinAscii, "çéè-ßØ") == "cee-sso"
  {
    LatinAsciiTestVector();
    assert ToLower("cee-ssO") == "cee-sso";
  }

  // ===========================================================================
  // The member record and the authorization decision

  /**
   * The `Adherent` fields the bridge reads. Galette's `name` is the family name
   * and `surname` the given name; `sname` is the display name, `sstatus` the
   * label of the membership status and `status` its id; `othersInfosAdmin` is
   * the free-text administrator note.
   */
  datatype Member = Member(
    id: int,
    name: string,
    surname: string,
    sname: string,
    email: string,
    language: string,
    country: string,
    zipcode: string,
    town: string,
    phone: string,
    gsm: string,
    status: int,
    sstatus: string,
    othersInfosAdmin: string,
    active: bool,
    upToDate: bool,
    admin: bool,
    staff: bool,
    groupManager: bool)

  /** The three `UserAuthorizationException`s of `getUserData`. */
  datatype Denial = InactiveMember | NotTeamMember | NotUpToDate {
    function Message(): string {
      match this
      case InactiveMember => "You are not an active member."
      case NotTeamMember => "Sorry, you can't login because your are not a team member."
      case NotUpToDate => "Sorry, you can't login because your are not an up-to-date member."
    }
  }

  predicate IsTeam(m: Member) {
    m.admin || m.staff || m.groupManager
  }

  /**
   * The checks of `getUserData`, in the order the code makes them: an inactive
   * member is refused as such whatever the options, and each later refusal
   * applies only when the earlier checks pass.
   */
  function Decide(m: Member, options: seq<string>): (r: Option<Denial>)
    ensures r == Some(InactiveMember) <==> !m.active
    ensures r == Some(NotTeamMember) <==> m.active && "teamonly" in options && !IsTeam(m)
    ensures r == Some(NotUpToDate) <==>
      m.active && ("teamonly" in options ==> IsTeam(m)) && "uptodate" in options && !m.upToDate
  {
    if !m.active then Some(InactiveMember)
    else if "teamonly" in options && !IsTeam(m) then Some(NotTeamMember)
    else if "uptodate" in options && !m.upToDate then Some(NotUpToDate)
    else None
  }

  /** A member is allowed exactly when active and meeting every rule the options switch on. */
  lemma DecideAllowsIff(m: Member, options: seq<string>)
    ensures Decide(m, options) == None <==>
      m.active && ("teamonly" in options ==> IsTeam(m)) && ("uptodate" in options ==> m.upToDate)
  {
  }

  // ===========================================================================
  // Groups

  /** `gs` with `g` appended when `flag` holds. */
  function AddIf(gs: seq<string>, flag: bool, g: string): seq<string> {
    if flag then gs + [g] else gs
  }

  /** The status label followed by the groups the capability flags add, in their fixed order. */
  function StatusAndFlagGroups(m: Member): seq<string> {
    AddIf(AddIf(AddIf(AddIf([m.sstatus], m.admin, "admin"), m.staff, "staff"), m.groupManager, "groupmanager"),
      m.upToDate, "uptodate")
  }

  /** At `i` stands `#GROUPS:`, the tag compared without regard to ASCII case. */
  predicate HeaderAt(s: string, i: nat) {
    i + 8 <= |s| && s[i] == '#' && ToLower(s[i + 1..i + 8]) == "groups:"
  }

  /** `t` starts with `g`, which holds no `#`, followed by a `#`. */
  predicate Closed(t: string, g: string) {
    |g| < |t| && t[..|g|] == g && '#' !in g && t[|g|] == '#'
  }

  /** The regular expression `#GROUPS:([^#]*)#` (case-insensitive) matches at `i` with `g` as its capture. */
  predicate MatchAt(s: string, i: nat, g: string) {
    HeaderAt(s, i) && Closed(s[i + 8..], g)
  }

  /** The text before the first `#` of `t`, if `t` holds one. */
  function UpToHash(t: string): (r: Option<string>)
    ensures forall g :: Closed(t, g) <==> r == Some(g)
    decreases |t|
  {
    if t == [] then None
    else if t[0] == '#' then
      assert Closed(t, "");
      Some("")
    else
      var rest := UpToHash(t[1..]);
      assert forall g :: Closed(t, g) <==> g != [] && g[0] == t[0] && Closed(t[1..], g[1..]) by {
        forall g
          ensures Closed(t, g) <==> g != [] && g[0] == t[0] && Closed(t[1..], g[1..])
        {
          if g != [] && g[0] == t[0] && Closed(t[1..], g[1..]) {
            assert g == [g[0]] + g[1..];
            assert t[..|g|] == [t[0]] + t[1..][..|g| - 1];
          }
        }
      }
      match rest
      case None => None
      case Some(g) =>
        assert ([t[0]] + g)[1..] == g;
        Some([t[0]] + g)
  }

  /** The first `#GROUPS:…#` capture at or after `i`, scanning left to right as the regular-expression engine does. */
  function DirectiveFrom(s: string, i: nat): Option<string>
    requires i <= |s|
    decreases |s| - i
  {
    if i == |s| then None
    else if HeaderAt(s, i) && UpToHash(s[i + 8..]).Some? then UpToHash(s[i + 8..])
    else DirectiveFrom(s, i + 1)
  }

  /** No result means no match at or after `i`; a result is the capture of the leftmost match. */
  lemma {:induction false} DirectiveFromLeftmost(s: string, i: nat)
    requires i <= |s|
    ensures DirectiveFrom(s, i).None? ==> forall j: nat, g :: i <= j ==> !MatchAt(s, j, g)
    ensures DirectiveFrom(s, i).Some? ==>
      exists j: nat :: i <= j && MatchAt(s, j, DirectiveFrom(s, i).value) &&
        (forall k: nat, g :: i <= k < j ==> !MatchAt(s, k, g))
    decreases |s| - i
  {
    if i == |s| {
    } else if HeaderAt(s, i) && UpToHash(s[i + 8..]).Some? {
      assert MatchAt(s, i, DirectiveFrom(s, i).value);
    } else {
      NoMatchAt(s, i);
      DirectiveFromLeftmost(s, i + 1);
      assert DirectiveFrom(s, i) == DirectiveFrom(s, i + 1);
      LeftmostStep(s, i, DirectiveFrom(s, i + 1));
    }
  }

  /** No match at `i` carries the leftmost-match facts from `i + 1` back to `i`. */
  lemma LeftmostStep(s: string, i: nat, r: Option<string>)
    requires forall g :: !MatchAt(s, i, g)
    requires r.None? ==> forall j: nat, g :: i + 1 <= j ==> !MatchAt(s, j, g)
    requires r.Some? ==>
      exists j: nat :: i + 1 <= j && MatchAt(s, j, r.value) && (forall k: nat, g :: i + 1 <= k < j ==> !MatchAt(s, k, g))
    ensures r.None? ==> forall j: nat, g :: i <= j ==> !MatchAt(s, j, g)
    ensures r.Some? ==>
      exists j: nat :: i <= j && MatchAt(s, j, r.value) && (forall k: nat, g :: i <= k < j ==> !MatchAt(s, k, g))
  {
    if r.Some? {
      var j: nat :| i + 1 <= j && MatchAt(s, j, r.value) && (forall k: nat, g :: i + 1 <= k < j ==> !MatchAt(s, k, g));
      assert forall k: nat, g :: i <= k < j ==> !MatchAt(s, k, g);
    }
  }

  /** Where the header or its closing `#` is missing, nothing matches. */
  lemma NoMatchAt(s: string, i: nat)
    requires i < |s| && !(HeaderAt(s, i) && UpToHash(s[i + 8..]).Some?)
    ensures forall g :: !MatchAt(s, i, g)
  {
  }

  /** The capture of the first `#GROUPS:…#` directive in the administrator note. */
  function Directive(info: string): Option<string> {
    DirectiveFrom(info, 0)
  }

  /** The groups the directive adds: its capture split on `;`, empty entries kept. */
  function DirectiveGroups(info: string): seq<string> {
    match Directive(info)
    case Some(g) => Explode(';', g)
    case None => []
  }

  /** The group list before normalisation: the status label, the flag groups, the directive's groups. */
  function RawGroups(m: Member): (r: seq<string>)
    ensures |r| >= 1 && r[0] == m.sstatus
    ensures (m.admin ==> "admin" in r) && (m.staff ==> "staff" in r) &&
      (m.groupManager ==> "groupmanager" in r) && (m.upToDate ==> "uptodate" in r)
  {
    StatusAndFlagGroups(m) + DirectiveGroups(m.othersInfosAdmin)
  }

  /** `str_replace([' ', '/', '(', ')'], ['_', '', '', ''], $s)`. */
  function Sanitise(s: string): (r: string)
    ensures forall k :: 0 <= k < |r| ==> r[k] != ' ' && r[k] != '/' && r[k] != '(' && r[k] != ')'
    ensures forall c :: c in r ==> c in s || c == '_'
    decreases |s|
  {
    if s == [] then ""
    else
      var rest := Sanitise(s[1..]);
      var head := if s[0] == ' ' then "_" else if s[0] in "/()" then "" else [s[0]];
      assert forall c :: c in head + rest ==> c in head || c in rest;
      head + rest
  }

  /** `str_replace('__', '_', $s)`: each `__` found scanning left to right becomes `_`, in one pass. */
  function CollapseUnderscores(s: string): (r: string)
    ensures |r| <= |s|
    ensures forall c :: c in r ==> c in s
    ensures s != [] ==> r != [] && r[0] == s[0]
    decreases |s|
  {
    if |s| >= 2 && s[0] == '_' && s[1] == '_' then
      var rest := CollapseUnderscores(s[2..]);
      assert forall c :: c in "_" + rest ==> c == '_' || c in rest;
      "_" + rest
    else if s == [] then ""
    else
      var rest := CollapseUnderscores(s[1..]);
      assert forall c :: c in [s[0]] + rest ==> c == s[0] || c in rest;
      [s[0]] + rest
  }

  /**
   * `str_replace` with arrays runs one pass per needle over the whole string:
   * spaces to `_`, then `/`, `(` and `)` deleted. The one-pass rewrite above is
   * those four passes.
   */
  function FourPasses(s: string): string {
    RemoveChar(RemoveChar(RemoveChar(ReplaceChar(s, ' ', '_'), '/'), '('), ')')
  }

  /** Each pass works character by character, so the four passes split over a concatenation. */
  lemma FourPassesAppend(a: string, b: string)
    ensures FourPasses(a + b) == FourPasses(a) + FourPasses(b)
  {
    var ra, rb := ReplaceChar(a, ' ', '_'), ReplaceChar(b, ' ', '_');
    assert ReplaceChar(a + b, ' ', '_') == ra + rb;
    RemoveCharAppend(ra, rb, '/');
    var sa, sb := RemoveChar(ra, '/'), RemoveChar(rb, '/');
    RemoveCharAppend(sa, sb, '(');
    RemoveCharAppend(RemoveChar(sa, '('), RemoveChar(sb, '('), ')');
  }

  /** On one character the four passes do what one step of the rewrite does. */
  lemma FourPassesChar(c: char)
    ensures FourPasses([c]) == if c == ' ' then "_" else if c in "/()" then "" else [c]
  {
    var t := ReplaceChar([c], ' ', '_');
    assert t == [if c == ' ' then '_' else c];
    assert RemoveChar(t[1..], '/') == [];
  }

  lemma {:induction false} SanitiseIsFourPasses(s: string)
    ensures Sanitise(s) == FourPasses(s)
    decreases |s|
  {
    if s != [] {
      SanitiseIsFourPasses(s[1..]);
      assert s == [s[0]] + s[1..];
      FourPassesAppend([s[0]], s[1..]);
      FourPassesChar(s[0]);
    }
  }

  /** The rewrite works character by character: it splits over any concatenation. */
  lemma SanitiseAppend(a: string, b: string)
    ensures Sanitise(a + b) == Sanitise(a) + Sanitise(b)
  {
    SanitiseIsFourPasses(a);
    SanitiseIsFourPasses(b);
    SanitiseIsFourPasses(a + b);
    FourPassesAppend(a, b);
  }

  /**
   * Cutting the string where no `__` straddles the cut, the pass collapses each
   * side on its own.
   */
  lemma {:induction false} CollapseAppend(a: string, b: string)
    requires a == [] || b == [] || a[|a| - 1] != '_' || b[0] != '_'
    ensures CollapseUnderscores(a + b) == CollapseUnderscores(a) + CollapseUnderscores(b)
    decreases |a|
  {
    if a == [] {
      assert a + b == b;
    } else if |a| >= 2 && a[0] == '_' && a[1] == '_' {
      assert a[2..] == [] || a[2..][|a[2..]| - 1] == a[|a| - 1];
      CollapseAppend(a[2..], b);
      CollapseDoubleStep(a, b);
    } else {
      assert a[1..] == [] || a[1..][|a[1..]| - 1] == a[|a| - 1];
      CollapseAppend(a[1..], b);
      CollapseSingleStep(a, b);
    }
  }

  /** A leading `__` of `a` is collapsed in `a + b` as in `a`, so the split carries over from `a[2..]`. */
  lemma CollapseDoubleStep(a: string, b: string)
    requires |a| >= 2 && a[0] == '_' && a[1] == '_'
    requires CollapseUnderscores(a[2..] + b) == CollapseUnderscores(a[2..]) + CollapseUnderscores(b)
    ensures CollapseUnderscores(a + b) == CollapseUnderscores(a) + CollapseUnderscores(b)
  {
    DropAppend(a, b, 2);
    var x, y := CollapseUnderscores(a[2..]), CollapseUnderscores(b);
    Regroup("_", x, y);
  }

  /**
   * A leading character of `a` that starts no `__`, even with `b` after `a`, is kept
   * in both, so the split carries over from `a[1..]`.
   */
  lemma CollapseSingleStep(a: string, b: string)
    requires a != [] && !(|a| >= 2 && a[0] == '_' && a[1] == '_')
    requires |a| >= 2 || b == [] || a[0] != '_' || b[0] != '_'
    requires CollapseUnderscores(a[1..] + b) == CollapseUnderscores(a[1..]) + CollapseUnderscores(b)
    ensures CollapseUnderscores(a + b) == CollapseUnderscores(a) + CollapseUnderscores(b)
  {
    CollapseSingleUnfold(a, b);
    CollapseKeepsHead(a);
    Regroup([a[0]], CollapseUnderscores(a[1..]), CollapseUnderscores(b));
  }

  lemma CollapseSingleUnfold(a: string, b: string)
    requires a != [] && !(|a| >= 2 && a[0] == '_' && a[1] == '_')
    requires |a| >= 2 || b == [] || a[0] != '_' || b[0] != '_'
    ensures CollapseUnderscores(a + b) == [a[0]] + CollapseUnderscores(a[1..] + b)
  {
    NoDoubleAtHead(a, b);
    CollapseKeepsHead(a + b);
    DropAppend(a, b, 1);
  }

  lemma DropAppend(a: string, b: string, k: nat)
    requires k <= |a|
    ensures (a + b)[k..] == a[k..] + b
  {
  }

  lemma NoDoubleAtHead(a: string, b: string)
    requires a != [] && !(|a| >= 2 && a[0] == '_' && a[1] == '_')
    requires |a| >= 2 || b == [] || a[0] != '_' || b[0] != '_'
    ensures (a + b)[0] == a[0] && !(|a + b| >= 2 && (a + b)[0] == '_' && (a + b)[1] == '_')
  {
    if |a| >= 2 {
      assert (a + b)[1] == a[1];
    } else if b != [] {
      assert (a + b)[1] == b[0];
    }
  }

  lemma CollapseKeepsHead(s: string)
    requires s != [] && !(|s| >= 2 && s[0] == '_' && s[1] == '_')
    ensures CollapseUnderscores(s) == [s[0]] + CollapseUnderscores(s[1..])
  {
  }

  lemma Regroup(h: string, x: string, y: string)
    ensures h + (x + y) == (h + x) + y
  {
  }

  predicate DoubleAt(s: string, k: int) {
    0 <= k && k + 1 < |s| && s[k] == '_' && s[k + 1] == '_'
  }

  predicate TripleAt(s: string, k: int) {
    0 <= k && k + 2 < |s| && s[k] == '_' && s[k + 1] == '_' && s[k + 2] == '_'
  }

  /** One pass leaves no `__` behind when the input has no run of three underscores. */
  lemma {:induction false} CollapseRemovesDoubles(s: string)
    requires forall k :: !TripleAt(s, k)
    ensures forall k :: !DoubleAt(CollapseUnderscores(s), k)
    decreases |s|
  {
    var r := CollapseUnderscores(s);
    if |s| >= 2 && s[0] == '_' && s[1] == '_' {
      var t := s[2..];
      assert forall k :: !TripleAt(t, k) by {
        forall k ensures !TripleAt(t, k) {
          assert !TripleAt(s, k + 2);
        }
      }
      CollapseRemovesDoubles(t);
      assert t != [] ==> t[0] != '_' by {
        assert !TripleAt(s, 0);
      }
      var rest := CollapseUnderscores(t);
      forall k ensures !DoubleAt(r, k) {
        if k >= 1 {
          assert !DoubleAt(rest, k - 1);
        }
      }
    } else if s != [] {
      var t := s[1..];
      assert forall k :: !TripleAt(t, k) by {
        forall k ensures !TripleAt(t, k) {
          assert !TripleAt(s, k + 1);
        }
      }
      CollapseRemovesDoubles(t);
      var rest := CollapseUnderscores(t);
      forall k ensures !DoubleAt(r, k) {
        if k >= 1 {
          assert !DoubleAt(rest, k - 1);
        }
      }
    }
  }

  lemma SanitiseSpaces()
    ensures Sanitise("a   b") == "a___b"
  {
    SanitiseCons('b', "");
    SanitiseCons(' ', "b");
    SanitiseCons(' ', " b");
    SanitiseCons(' ', "  b");
    SanitiseCons('a', "   b");
  }

  lemma SanitiseCons(c: char, s: string)
    ensures Sanitise([c] + s) == (if c == ' ' then "_" else if c in "/()" then "" else [c]) + Sanitise(s)
  {
    assert ([c] + s)[1..] == s;
  }

  lemma CollapseThree()
    ensures CollapseUnderscores("a___b") == "a__b"
  {
    assert CollapseUnderscores("b") == "b";
    assert CollapseUnderscores("_b") == "_b";
    assert CollapseUnderscores("___b") == "_" + CollapseUnderscores("_b");
  }

  /** The single pass is not a full collapse: three spaces still leave a doubled underscore. */
  lemma CollapseIsOnePass()
    ensures CollapseUnderscores(Sanitise("a   b")) == "a__b"
  {
    SanitiseSpaces();
    CollapseThree();
  }

  /** One group as `getUserData` rewrites it: trimmed, sanitised, `__` collapsed once, accents stripped. */
  function NormaliseGroup(tr: Transliterator, g: string): (r: string)
    ensures IsLower(r)
  {
    StripAccents(tr, CollapseUnderscores(Sanitise(Trim(g))))
  }

  function NormalisedGroups(tr: Transliterator, gs: seq<string>): (r: seq<string>)
    ensures |r| == |gs|
    ensures forall k :: 0 <= k < |gs| ==> r[k] == NormaliseGroup(tr, gs[k])
  {
    seq(|gs|, k requires 0 <= k < |gs| => NormaliseGroup(tr, gs[k]))
  }

  /** The `groups` claim: the normalised groups joined by commas. */
  function GroupsClaim(tr: Transliterator, m: Member): string {
    Implode(',', NormalisedGroups(tr, RawGroups(m)))
  }

  /**
   * The claim splits back into the normalised group list, one comma fewer than
   * groups, as long as no normalised group holds a comma itself.
   */
  lemma GroupsClaimSplits(tr: Transliterator, m: Member)
    requires forall k :: 0 <= k < |RawGroups(m)| ==> ',' !in NormaliseGroup(tr, RawGroups(m)[k])
    ensures Explode(',', GroupsClaim(tr, m)) == NormalisedGroups(tr, RawGroups(m))
    ensures Count(',', GroupsClaim(tr, m)) + 1 == |RawGroups(m)|
  {
    var gs := NormalisedGroups(tr, RawGroups(m));
    ExplodeImplode(',', gs);
    ImplodeCount(',', gs);
  }

  lemma {:induction false} LatinAsciiAddsNoComma(s: string)
    requires ',' !in s
    ensures ',' !in LatinAscii(s)
    decreases |s|
  {
    if s != [] {
      LatinAsciiAddsNoComma(s[1..]);
      assert ',' !in Letter(s[0]);
    }
  }

  /** With the sample table, a group without a comma normalises to one without a comma. */
  lemma NormaliseGroupAddsNoComma(g: string)
    requires ',' !in g
    ensures ',' !in NormaliseGroup(LatinAscii, g)
  {
    var c := CollapseUnderscores(Sanitise(Trim(g)));
    LatinAsciiAddsNoComma(c);
  }

  /** With the sample table, the group count is the comma count plus one when no raw group holds a comma. */
  lemma GroupCountLatinAscii(m: Member)
    requires forall k :: 0 <= k < |RawGroups(m)| ==> ',' !in RawGroups(m)[k]
    ensures Count(',', GroupsClaim(LatinAscii, m)) + 1 == |RawGroups(m)|
  {
    forall k | 0 <= k < |RawGroups(m)| ensures ',' !in NormaliseGroup(LatinAscii, RawGroups(m)[k]) {
      NormaliseGroupAddsNoComma(RawGroups(m)[k]);
    }
    GroupsClaimSplits(LatinAscii, m);
  }

  // ===========================================================================
  // The normalised login

  /** The separators of `preg_split('/[\s,-]+/', …)`: PCRE's `\s` in the C locale, the comma and the hyphen. */
  predicate IsSplitChar(c: char) {
    c == ' ' || c == '\t' || c == '\n' || c == '\U{B}' || c == '\U{C}' || c == '\r' || c == ',' || c == '-'
  }

  predicate NoSplitChar(s: string) {
    forall k :: 0 <= k < |s| ==> !IsSplitChar(s[k])
  }

  /** The longest prefix of `s` without a separator. */
  function Word(s: string): (r: string)
    ensures |r| <= |s| && r == s[..|r|]
    ensures NoSplitChar(r)
    ensures |r| < |s| ==> IsSplitChar(s[|r|])
    decreases |s|
  {
    if s == [] || IsSplitChar(s[0]) then ""
    else [s[0]] + Word(s[1..])
  }

  /** `s` without its leading run of separators. */
  function SkipSeparators(s: string): (r: string)
    ensures |r| <= |s| && r == s[|s| - |r|..]
    ensures forall k :: 0 <= k < |s| - |r| ==> IsSplitChar(s[k])
    ensures r == [] || !IsSplitChar(r[0])
    decreases |s|
  {
    if s != [] && IsSplitChar(s[0]) then SkipSeparators(s[1..]) else s
  }

  /**
   * `preg_split('/[\s,-]+/', $s)`: the pieces between maximal runs of
   * separators; a leading or trailing run gives an empty piece.
   */
  function Tokens(s: string): (r: seq<string>)
    ensures |r| >= 1
    ensures forall k :: 0 <= k < |r| ==> NoSplitChar(r[k])
    decreases |s|
  {
    var w := Word(s);
    if |w| == |s| then [w]
    else [w] + Tokens(SkipSeparators(s[|w|..]))
  }

  /** `s` with every separator removed. */
  function Letters(s: string): string
    decreases |s|
  {
    if s == [] then "" else (if IsSplitChar(s[0]) then "" else [s[0]]) + Letters(s[1..])
  }

  function Concat(xs: seq<string>): string
    decreases |xs|
  {
    if xs == [] then "" else xs[0] + Concat(xs[1..])
  }

  lemma {:induction false} LettersAppend(a: string, b: string)
    ensures Letters(a + b) == Letters(a) + Letters(b)
    decreases |a|
  {
    if a == [] {
      assert a + b == b;
    } else {
      assert (a + b)[1..] == a[1..] + b;
      LettersAppend(a[1..], b);
    }
  }

  lemma {:induction false} LettersOfWord(s: string)
    requires NoSplitChar(s)
    ensures Letters(s) == s
    decreases |s|
  {
    if s != [] {
      LettersOfWord(s[1..]);
      assert [s[0]] + s[1..] == s;
    }
  }

  lemma {:induction false} LettersOfSeparators(s: string)
    requires forall k :: 0 <= k < |s| ==> IsSplitChar(s[k])
    ensures Letters(s) == ""
    decreases |s|
  {
    if s != [] {
      LettersOfSeparators(s[1..]);
    }
  }

  /** One step of `Tokens`: the first word, the run of separators after it, then the rest. */
  lemma TokensStep(s: string) returns (run: string, rest: string)
    requires |Word(s)| < |s|
    ensures s == Word(s) + (run + rest) && Letters(run) == "" && |rest| < |s|
    ensures SeparatorRun(run)
    ensures Tokens(s) == [Word(s)] + Tokens(rest)
  {
    var w := Word(s);
    var after := s[|w|..];
    TakeDrop(s, |w|);
    rest := SkipSeparators(after);
    run := after[..|after| - |rest|];
    TakeDrop(after, |after| - |rest|);
    SkippedRun(s);
    LettersOfSeparators(run);
  }

  /** What `SkipSeparators` passes over after the first word is a separator run. */
  lemma SkippedRun(s: string)
    requires |Word(s)| < |s|
    ensures var after := s[|Word(s)|..];
      SeparatorRun(after[..|after| - |SkipSeparators(after)|])
  {
    var after := s[|Word(s)|..];
    assert IsSplitChar(after[0]);
    assert SkipSeparators(after) == SkipSeparators(after[1..]);
  }

  /** A non-empty run of separators, as one match of `[\s,-]+`. */
  predicate SeparatorRun(run: string) {
    |run| > 0 && forall k :: 0 <= k < |run| ==> IsSplitChar(run[k])
  }

  /** The pieces with the runs between them: `pieces[0] + runs[0] + pieces[1] + …`. */
  function Weave(pieces: seq<string>, runs: seq<string>): string
    requires |pieces| >= 1 && |runs| == |pieces| - 1
    decreases |pieces|
  {
    if |pieces| == 1 then pieces[0] else pieces[0] + (runs[0] + Weave(pieces[1..], runs[1..]))
  }

  lemma WeaveCons(w: string, run: string, pieces: seq<string>, runs: seq<string>)
    requires |pieces| >= 1 && |runs| == |pieces| - 1
    ensures Weave([w] + pieces, [run] + runs) == w + (run + Weave(pieces, runs))
  {
    assert ([w] + pieces)[1..] == pieces;
    assert ([run] + runs)[1..] == runs;
  }

  /**
   * Where the splits fall: the name is its pieces with a non-empty run of
   * separators between each two, and the pieces hold no separator, so every
   * run is a maximal one, as `preg_split('/[\s,-]+/')` cuts.
   */
  lemma {:induction false} TokensSplitAtRuns(s: string) returns (runs: seq<string>)
    ensures |runs| == |Tokens(s)| - 1
    ensures forall k :: 0 <= k < |runs| ==> SeparatorRun(runs[k])
    ensures Weave(Tokens(s), runs) == s
    decreases |s|
  {
    var w := Word(s);
    if |w| == |s| {
      assert s == w && Tokens(s) == [w];
      runs := [];
    } else {
      var run, rest := TokensStep(s);
      var more := TokensSplitAtRuns(rest);
      runs := [run] + more;
      WeaveStep(s, w, run, rest, Tokens(rest), more);
      RunsCons(run, more);
    }
  }

  lemma WeaveStep(s: string, w: string, run: string, rest: string, pieces: seq<string>, runs: seq<string>)
    requires s == w + (run + rest)
    requires |pieces| >= 1 && |runs| == |pieces| - 1 && Weave(pieces, runs) == rest
    ensures Weave([w] + pieces, [run] + runs) == s
  {
    WeaveCons(w, run, pieces, runs);
  }

  lemma RunsCons(run: string, runs: seq<string>)
    requires SeparatorRun(run) && forall k :: 0 <= k < |runs| ==> SeparatorRun(runs[k])
    ensures forall k :: 0 <= k < |[run] + runs| ==> SeparatorRun(([run] + runs)[k])
  {
  }

  lemma TakeDrop(s: string, k: nat)
    requires k <= |s|
    ensures s == s[..k] + s[k..]
  {
  }

  lemma ConcatCons(x: string, xs: seq<string>)
    ensures Concat([x] + xs) == x + Concat(xs)
  {
    assert ([x] + xs)[1..] == xs;
  }

  /** The pieces, put back together, are the input without its separators: no letter is lost or added. */
  lemma {:induction false} TokensKeepLetters(s: string)
    ensures Concat(Tokens(s)) == Letters(s)
    decreases |s|
  {
    var w := Word(s);
    LettersOfWord(w);
    if |w| == |s| {
      assert s == w && Tokens(s) == [w];
      assert Concat([w]) == w + Concat([]);
    } else {
      var run, rest := TokensStep(s);
      TokensKeepLetters(rest);
      TokensKeepLettersStep(s, w, run, rest);
    }
  }

  lemma TokensKeepLettersStep(s: string, w: string, run: string, rest: string)
    requires w == Word(s) && Letters(w) == w
    requires s == w + (run + rest) && Letters(run) == "" && Tokens(s) == [w] + Tokens(rest)
    requires Concat(Tokens(rest)) == Letters(rest)
    ensures Concat(Tokens(s)) == Letters(s)
  {
    ConcatCons(w, Tokens(rest));
    LettersSplit(w, run, rest);
  }

  lemma LettersSplit(w: string, run: string, rest: string)
    requires Letters(w) == w && Letters(run) == ""
    ensures Letters(w + (run + rest)) == w + Letters(rest)
  {
    LettersAppend(run, rest);
    EmptyAppend(Letters(rest));
    LettersAppend(w, run + rest);
  }

  lemma EmptyAppend(x: string)
    ensures "" + x == x
  {
  }

  /** There is a second piece exactly when the input holds a separator. */
  lemma SecondTokenIff(s: string)
    ensures |Tokens(s)| > 1 <==> exists k :: 0 <= k < |s| && IsSplitChar(s[k])
  {
    var w := Word(s);
    if |w| == |s| {
      assert s == w;
    }
  }

  /** The first-name part of the login: the first piece, with the second appended when the first is shorter than four characters. */
  function NamePart(name: string): (r: string)
    ensures NoSplitChar(r)
    ensures |Tokens(name)| > 1 && |Tokens(name)[0]| < 4 ==> r == Tokens(name)[0] + Tokens(name)[1]
    ensures !(|Tokens(name)| > 1 && |Tokens(name)[0]| < 4) ==> r == Tokens(name)[0]
  {
    var t := Tokens(name);
    if |t[0]| < 4 && |t| > 1 then
      assert NoSplitChar(t[0]) && NoSplitChar(t[1]);
      t[0] + t[1]
    else t[0]
  }

  /** The name part is where the name's letters start: no letter is skipped or invented on the way. */
  lemma NamePartStartsLetters(name: string)
    ensures NamePart(name) <= Letters(name)
  {
    TokensKeepLetters(name);
    ConcatPrefixes(Tokens(name));
  }

  /** The first piece, and the first two pieces together, start the concatenation. */
  lemma ConcatPrefixes(xs: seq<string>)
    requires |xs| >= 1
    ensures xs[0] <= Concat(xs)
    ensures |xs| > 1 ==> xs[0] + xs[1] <= Concat(xs)
  {
    assert xs == [xs[0]] + xs[1..];
    ConcatCons(xs[0], xs[1..]);
    PrefixOfAppend(xs[0], Concat(xs[1..]));
    if |xs| > 1 {
      var u := xs[1..];
      assert u == [u[0]] + u[1..];
      ConcatCons(u[0], u[1..]);
      Regroup(xs[0], xs[1], Concat(u[1..]));
      PrefixOfAppend(xs[0] + xs[1], Concat(u[1..]));
    }
  }

  lemma PrefixOfAppend(a: string, b: string)
    ensures a <= a + b
  {
    assert (a + b)[..|a|] == a;
  }

  /** `mb_substr($s, 0, 1)`. */
  function FirstChar(s: string): (r: string)
    ensures |r| <= 1 && r <= s
    ensures s != [] ==> |r| == 1
  {
    if s == [] then "" else s[..1]
  }

  /** The normalised `s.name` login. */
  function NormalisedLogin(tr: Transliterator, name: string, surname: string): string {
    FirstChar(StripAccents(tr, surname)) + "." + StripAccents(tr, NamePart(name))
  }

  /**
   * The login is lower-case: the first letter of the stripped given name (none
   * when that is empty), a dot, then the stripped family-name part.
   */
  lemma NormalisedLoginShape(tr: Transliterator, name: string, surname: string)
    ensures var initial := StripAccents(tr, surname);
      var part := StripAccents(tr, NamePart(name));
      var r := NormalisedLogin(tr, name, surname);
      IsLower(r) && |r| == (if initial == [] then 0 else 1) + 1 + |part| &&
      r[|r| - |part|..] == part && r[|r| - |part| - 1] == '.' &&
      (initial != [] ==> r[0] == initial[0])
  {
    var i := FirstChar(StripAccents(tr, surname));
    var p := StripAccents(tr, NamePart(name));
    var r := i + "." + p;
    assert r[|r| - |p|..] == p;
    assert IsLower(i) by {
      assert forall k :: 0 <= k < |i| ==> i[k] == StripAccents(tr, surname)[k];
    }
    LowerDotted(i, p);
  }

  /** Two lower-case strings joined by a dot are lower-case. */
  lemma LowerDotted(a: string, b: string)
    requires IsLower(a) && IsLower(b)
    ensures IsLower(a + "." + b)
  {
    var r := a + "." + b;
    forall k | 0 <= k < |r| ensures !IsUpperAscii(r[k]) {
      if k > |a| {
        assert r[k] == b[k - |a| - 1];
      }
    }
  }

  lemma {:induction false} WordOfPlain(s: string)
    requires NoSplitChar(s)
    ensures Word(s) == s
    decreases |s|
  {
    if s != [] {
      WordOfPlain(s[1..]);
      assert [s[0]] + s[1..] == s;
    }
  }

  lemma {:induction false} WordStops(a: string, b: string)
    requires NoSplitChar(a) && b != [] && IsSplitChar(b[0])
    ensures Word(a + b) == a
    decreases |a|
  {
    if a == [] {
      assert a + b == b;
    } else {
      assert (a + b)[1..] == a[1..] + b;
      WordStops(a[1..], b);
      assert [a[0]] + a[1..] == a;
    }
  }

  /** A name without separators is a single piece. */
  lemma TokensOfPlain(s: string)
    requires NoSplitChar(s)
    ensures Tokens(s) == [s]
  {
    WordOfPlain(s);
  }

  lemma StripDurand()
    ensures StripAccents(LatinAscii, "Durand") == "durand"
  {
    LatinAsciiKeepsKept("Durand");
    LowerDurand();
  }

  lemma LowerDurand()
    ensures ToLower("Durand") == "durand"
  {
    assert ToLower("Durand")[0] == 'd';
  }

  lemma StripRene()
    ensures StripAccents(LatinAscii, "René") == "rene"
  {
    assert LatinAscii("René") == "Rene" by {
      LatinAsciiCons('é', "");
      LatinAsciiCons('n', "é");
      LatinAsciiCons('e', "né");
      LatinAsciiCons('R', "ené");
    }
  }

  /** The repository's test member: family name Durand, given name René, logs in as `r.durand`. */
  lemma MemberOneLogin(m: Member)
    requires m.name == "Durand" && m.surname == "René"
    ensures NormalisedLogin(LatinAscii, m.name, m.surname) == "r.durand"
  {
    assert NamePart(m.name) == "Durand" by {
      TokensOfPlain("Durand");
    }
    StripDurand();
    StripRene();
    var login := NormalisedLogin(LatinAscii, m.name, m.surname);
    assert login == FirstChar("rene") + "." + "durand";
    JoinMemberOneLogin();
  }

  lemma JoinMemberOneLogin()
    ensures FirstChar("rene") + "." + "durand" == "r.durand"
  {
    assert FirstChar("rene") == "r";
  }

  /** Two separator-free words joined by one space are two pieces. */
  lemma TokensOfTwo(a: string, b: string)
    requires NoSplitChar(a) && NoSplitChar(b)
    ensures Tokens(a + ([' '] + b)) == [a, b]
  {
    var t := [' '] + b;
    var s := a + t;
    WordStops(a, t);
    assert s[|a|..] == t;
    SkipOneSpace(b);
    TokensOfPlain(b);
    assert Tokens(s) == [a] + Tokens(SkipSeparators(t));
  }

  /** A single space before a separator-free string is skipped, and nothing more. */
  lemma SkipOneSpace(b: string)
    requires NoSplitChar(b)
    ensures SkipSeparators([' '] + b) == b
  {
    assert ([' '] + b)[1..] == b;
    assert SkipSeparators(b) == b;
  }

  /** A piece shorter than four characters takes the next one along. */
  lemma ShortPieceJoined(a: string, b: string)
    requires NoSplitChar(a) && NoSplitChar(b) && |a| < 4
    ensures NamePart(a + ([' '] + b)) == a + b
  {
    TokensOfTwo(a, b);
  }

  /** The first piece of "Le Gall" is too short: the part is `LeGall`. */
  lemma ShortFirstPiece(name: string)
    requires name == "Le Gall"
    ensures NamePart(name) == "Le" + "Gall"
  {
    var a, b := "Le", "Gall";
    assert name == a + ([' '] + b);
    ShortPieceJoined(a, b);
  }

  // ===========================================================================
  // Claims

  /** The claims map `getUserData` returns. */
  datatype Claims = Claims(
    id: int,
    identifier: int,
    displayName: string,
    username: string,
    userName: string,
    name: string,
    email: string,
    mail: string,
    language: string,
    country: string,
    zip: string,
    city: string,
    phone: string,
    status: int,
    state: string,
    groups: string)

  /** What each claim holds for member `m`. */
  predicate DescribesMember(tr: Transliterator, m: Member, c: Claims) {
    c.id == m.id && c.identifier == m.id && c.displayName == m.sname &&
    c.username == NormalisedLogin(tr, m.name, m.surname) &&
    c.userName == c.username && c.name == c.username &&
    c.email == m.email && c.mail == m.email && c.language == m.language &&
    c.country == m.country && c.zip == m.zipcode && c.city == m.town &&
    (if Truthy(m.phone) && Truthy(m.gsm) then c.phone == m.phone + "/" + m.gsm
     else if Truthy(m.phone) then c.phone == m.phone
     else if Truthy(m.gsm) then c.phone == m.gsm
     else c.phone == "") &&
    c.status == m.status &&
    c.state == (if (m.active && m.upToDate) || m.admin then "true" else "false") &&
    c.groups == GroupsClaim(tr, m)
  }

  /** The `phone` claim: the phone, then the mobile after a `/` when both are set (set meaning PHP-truthy). */
  method JoinPhones(phone: string, gsm: string) returns (r: string)
    ensures Truthy(phone) && Truthy(gsm) ==> r == phone + "/" + gsm
    ensures Truthy(phone) && !Truthy(gsm) ==> r == phone
    ensures !Truthy(phone) && Truthy(gsm) ==> r == gsm
    ensures !Truthy(phone) && !Truthy(gsm) ==> r == ""
  {
    r := "";
    if Truthy(phone) {
      r := phone;
    }
    if Truthy(gsm) {
      if Truthy(r) {
        r := r + "/";
      }
      r := r + gsm;
    }
  }

  /** The group list of `getUserData` before normalisation: status, flags, then the directive's entries. */
  method CollectGroups(m: Member) returns (groups: seq<string>)
    ensures groups == RawGroups(m)
  {
    groups := [m.sstatus];
    if m.admin {
      groups := groups + ["admin"];
    }
    if m.staff {
      groups := groups + ["staff"];
    }
    if m.groupManager {
      groups := groups + ["groupmanager"];
    }
    if m.upToDate {
      groups := groups + ["uptodate"];
    }
    match Directive(m.othersInfosAdmin) {
      case Some(g) => groups := groups + Explode(';', g);
      case None =>
    }
  }

  /** The by-reference `foreach` of `getUserData`: every group rewritten in place, in order. */
  method NormaliseEach(tr: Transliterator, raw: seq<string>) returns (groups: seq<string>)
    ensures groups == NormalisedGroups(tr, raw)
  {
    groups := raw;
    var i := 0;
    while i < |groups|
      invariant 0 <= i <= |groups| == |raw|
      invariant forall k :: 0 <= k < i ==> groups[k] == NormaliseGroup(tr, raw[k])
      invariant forall k :: i <= k < |groups| ==> groups[k] == raw[k]
    {
      var group := Trim(groups[i]);
      group := Sanitise(group);
      group := CollapseUnderscores(group);
      group := StripAccents(tr, group);
      groups := groups[i := group];
      i := i + 1;
    }
  }

  /** `UserHelper::getUserData` on the loaded member. */
  method GetUserData(tr: Transliterator, m: Member, options: seq<string>) returns (r: Result<Claims, Denial>)
    ensures r.Failure? <==> Decide(m, options).Some?
    ensures r.Failure? ==> Decide(m, options) == Some(r.error)
    ensures r.Success? ==> DescribesMember(tr, m, r.value)
  {
    var normLogin := NormalisedLogin(tr, m.name, m.surname);
    var state := (m.active && m.upToDate) || m.admin;

    if !m.active {
      return Failure(InactiveMember);
    }
    if "teamonly" in options {
      if !m.admin && !m.staff && !m.groupManager {
        return Failure(NotTeamMember);
      }
    }
    if "uptodate" in options {
      if !m.upToDate {
        return Failure(NotUpToDate);
      }
    }
    assert Decide(m, options) == None;

    var raw := CollectGroups(m);
    var groups := NormaliseEach(tr, raw);
    var joined := Implode(',', groups);
    assert joined == GroupsClaim(tr, m);
    var phone := JoinPhones(m.phone, m.gsm);

    var claims := Claims(
      m.id, m.id, m.sname, normLogin, normLogin, normLogin, m.email, m.email, m.language,
      m.country, m.zipcode, m.town, phone, m.status, if state then "true" else "false", joined);
    return Success(claims);
  }

  lemma TagLower()
    ensures ToLower("GROUPS:") == "groups:"
  {
  }

  /** The tag is recognised in any ASCII case; here in capitals. */
  lemma HeaderOfTag(tail: string)
    ensures HeaderAt("#GROUPS:" + tail, 0)
  {
    var s := "#GROUPS:" + tail;
    assert s[1..8] == "GROUPS:";
    TagLower();
  }

  /** A directive at the very start captures what runs up to the next `#`. */
  lemma DirectiveAtStart(tail: string, g: string)
    requires UpToHash(tail) == Some(g)
    ensures Directive("#GROUPS:" + tail) == Some(g)
  {
    HeaderOfTag(tail);
    assert ("#GROUPS:" + tail)[8..] == tail;
  }

  /** The capture ends at the first `#`. */
  lemma CaptureBeforeHash(g: string)
    requires '#' !in g
    ensures UpToHash(g + "#") == Some(g)
  {
    assert (g + "#")[..|g|] == g;
    assert Closed(g + "#", g);
  }

  /**
   * A directive at the start of the note, closed by a `#`: its `;`-separated
   * entries follow the status and flag groups, in order.
   */
  lemma DirectiveEntriesFollowFlags(m: Member, g: string)
    requires '#' !in g
    requires m.othersInfosAdmin == "#GROUPS:" + (g + "#")
    ensures RawGroups(m) == StatusAndFlagGroups(m) + Explode(';', g)
  {
    CaptureBeforeHash(g);
    DirectiveAtStart(g + "#", g);
  }

  /** Kept characters other than a space, `/`, `(`, `)` and `_`: what `getUserData` leaves alone but for case. */
  predicate Plain(g: string) {
    AllKept(g) && forall k :: 0 <= k < |g| ==> g[k] != ' ' && g[k] != '/' && g[k] != '(' && g[k] != ')' && g[k] != '_'
  }

  /** A plain group only loses its upper case. */
  lemma NormalisePlain(g: string)
    requires Plain(g)
    ensures NormaliseGroup(LatinAscii, g) == ToLower(g)
  {
    PlainIsTrimmed(g);
    SanitiseKeepsPlain(g);
    CollapseKeepsPlain(g);
    LatinAsciiKeepsKept(g);
  }

  lemma PlainIsTrimmed(g: string)
    requires Plain(g)
    ensures Trim(g) == g
  {
    assert TrimLeft(g) == g;
    assert TrimRight(g) == g;
  }

  lemma {:induction false} SanitiseKeepsPlain(g: string)
    requires forall k :: 0 <= k < |g| ==> g[k] != ' ' && g[k] != '/' && g[k] != '(' && g[k] != ')'
    ensures Sanitise(g) == g
    decreases |g|
  {
    if g != [] {
      SanitiseKeepsPlain(g[1..]);
      assert [g[0]] + g[1..] == g;
    }
  }

  lemma {:induction false} CollapseKeepsPlain(g: string)
    requires forall k :: 0 <= k < |g| ==> g[k] != '_'
    ensures CollapseUnderscores(g) == g
    decreases |g|
  {
    if g != [] {
      CollapseKeepsPlain(g[1..]);
      assert [g[0]] + g[1..] == g;
    }
  }

  lemma NonMemberIsPlain()
    ensures Plain("Non-member")
  {
  }

  lemma NonMemberLowered()
    ensures ToLower("Non-member") == "non-member"
  {
  }

  /** Without flags and without a directive, the status label is the only group. */
  lemma SingleGroup(tr: Transliterator, m: Member)
    requires !m.admin && !m.staff && !m.groupManager && !m.upToDate
    requires Directive(m.othersInfosAdmin) == None
    ensures GroupsClaim(tr, m) == NormaliseGroup(tr, m.sstatus)
  {
    assert RawGroups(m) == [m.sstatus];
  }

  /** The repository's test member: status label "Non-member", no flag, no directive; its groups are `non-member`. */
  lemma MemberOneGroups(m: Member)
    requires m.sstatus == "Non-member" && !m.admin && !m.staff && !m.groupManager && !m.upToDate
    requires m.othersInfosAdmin == ""
    ensures GroupsClaim(LatinAscii, m) == "non-member"
  {
    SingleGroup(LatinAscii, m);
    NonMemberIsPlain();
    NormalisePlain("Non-member");
    NonMemberLowered();
  }

  // ===========================================================================
  // mergeOptions

  /** The options string of a client: `;` read as a space, then split on single spaces. */
  function OptionTokens(o: string): seq<string> {
    Explode(' ', ReplaceChar(o, ';', ' '))
  }

  /** The configured `{client_id}.options` value, trimmed. */
  function ClientOptions(cfg: Yaml, clientId: string): string {
    Get(cfg, clientId + ".options", "")
  }

  /** `UserHelper::mergeOptions`: configured options then scopes, each value once. */
  function MergeOptions(cfg: Yaml, clientId: string, scopes: seq<string>): seq<string> {
    var o := ClientOptions(cfg, clientId);
    Unique(if Truthy(o) then OptionTokens(o) + scopes else scopes)
  }

  /** The merged options hold each value once: every scope, and every configured option when there is a configured value. */
  lemma MergeOptionsMembers(cfg: Yaml, clientId: string, scopes: seq<string>)
    ensures NoDuplicates(MergeOptions(cfg, clientId, scopes))
    ensures forall x :: x in MergeOptions(cfg, clientId, scopes) <==>
      x in scopes || (Truthy(ClientOptions(cfg, clientId)) && x in OptionTokens(ClientOptions(cfg, clientId)))
  {
    var o := ClientOptions(cfg, clientId);
    var all := if Truthy(o) then OptionTokens(o) + scopes else scopes;
    UniqueNoDuplicates(all);
    UniqueMembers(all);
  }

  /**
   * The configured options come first in their own order; the scopes follow in
   * theirs, less those already configured. Without a configured value, only the
   * scopes remain.
   */
  lemma MergeOptionsOrder(cfg: Yaml, clientId: string, scopes: seq<string>)
    ensures var o := ClientOptions(cfg, clientId);
      MergeOptions(cfg, clientId, scopes) ==
        if Truthy(o) then Unique(OptionTokens(o)) + Without(Unique(scopes), OptionTokens(o))
        else Unique(scopes)
  {
    var o := ClientOptions(cfg, clientId);
    if Truthy(o) {
      UniqueAppend(OptionTokens(o), scopes);
    }
  }

  /**
   * With a configured value, the options after the configured ones are the
   * scopes the configuration does not already name, and no others.
   */
  lemma MergeOptionsAddedScopes(cfg: Yaml, clientId: string, scopes: seq<string>)
    requires Truthy(ClientOptions(cfg, clientId))
    ensures var configured := Unique(OptionTokens(ClientOptions(cfg, clientId)));
      var m := MergeOptions(cfg, clientId, scopes);
      |configured| <= |m| && m[..|configured|] == configured &&
      forall x :: x in m[|configured|..] <==> x in scopes && x !in configured
  {
    var tokens := OptionTokens(ClientOptions(cfg, clientId));
    var added := Without(Unique(scopes), tokens);
    MergeOptionsOrder(cfg, clientId, scopes);
    SplitAt(Unique(tokens), added);
    WithoutMembers(Unique(scopes), tokens);
    UniqueMembers(scopes);
    UniqueMembers(tokens);
  }

  lemma SplitAt(a: seq<string>, b: seq<string>)
    ensures (a + b)[..|a|] == a && (a + b)[|a|..] == b
  {
  }
}
