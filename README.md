# Galette OAuth2 bridge: a Dafny model of the authorization core

This project models the part of the Galette OAuth2 plugin that sits between
an OAuth2 client (Nextcloud, typically) and the Galette membership database:

- the **credential gate** `UserHelper::login` / `logout`, with the refusal of
  the superadmin account and the history and flash messages it leaves;
- the **authorization decision and claims mapping** `UserHelper::getUserData`:
  the checks on an active, team or up-to-date member; the group list made of
  the status label, the capability flags and the `#GROUPS:…#` directive of
  the administrator note, normalised and joined by commas; the normalised
  login `s.name`; the phone claim;
- `UserHelper::mergeOptions` (the client's configured options merged with the
  requested scopes, each value once) and `UserHelper::stripAccents`;
- the **login controller**: GET captures the authorization request
  (`request_args`) from `redirect_url`; POST runs the session state machine
  `isLoggedIn`/`user_id` through the credential and authorization checks, then
  continues to `/authorize`; logout; the login page's application title;
- the **Authentication middleware**, which admits a request only when
  `isLoggedIn` is `yes`;
- the **authorize endpoint**: the redirect-URI binding written before the
  OAuth2 server is consulted, the user and the approval handed to the server,
  and the mapping of exceptions to responses;
- the **client repository**: the client entity (identifier, name, redirect
  URI resolved from the session first and the cache file second) and the
  shared-secret client check.

Galette's session and container services are classes whose fields the
methods update (`Runtime.Session`, `Runtime.Galette`, `Runtime.Store`).
The computations (decision, groups, login, options, binding) are functions,
and the methods are proved against them. Foreign code becomes parameters:

- Galette's `Login::logIn`;
- the member loaded by id;
- PHP's password functions;
- the ICU transliterator;
- URL query parsing;
- the OAuth2 server's validate and complete steps.

Behaviour worth knowing:

- **Check order.** The inactive-member check comes first (`UserHelper.php:131`), before the `teamonly` and `uptodate` checks.
- **Test member's login.** The login built for the test member (family name `Durand`, given name `René`) is `r.durand` (initial of the given name, then the family name), as the unit test asserts.
- **Missing credentials.** `LoginController.php` and `UserHelper.php` run under strict types, so `trim(null)` throws a `TypeError`. A POST without `login`, or with a non-blank `login` but no `password`, ends in that uncaught error (a 500 from the framework). It happens before `user_id` is written, with `isLoggedIn` already `no` (`LoginController.Unreadable`). A blank `login` with no `password` is refused as bad credentials, because `||` stops before the second `trim`.
- **Missing `scope`.** `explode(' ', null)` throws a `TypeError` too. When `request_args` has no `scope`, a valid login still logs Galette in, writes `user_id` and the `Login` history line, and then fails with that error. `isLoggedIn` stays `no`, so the middleware refuses the session.
- **Missing `client_id`.** A missing `client_id` reads as the empty string (a warning, not an error), so `mergeOptions` looks up the `.options` key of the empty client.
- **Refused authorization.** When the authorization check refuses a member who gave valid credentials, `UserHelper::logout` runs but `user_id` keeps the member's id. `isLoggedIn` stays `no`, so the middleware still refuses the session.
- **Logout.** Logout clears `request_args`, so a second logout redirects to `/` and not to the client's logout URL.
- **Configuration writes.** `Config::set` in `authorize` changes only the in-memory configuration of that request; the file write is commented out. Only the cache file carries the redirect URI to later requests.
- **Identifier default.** The default of `{client_id}.id` is the client id, and it is trimmed like any configuration value.
- **Wrong credentials while already logged in.** `UserHelper::login` asks `isLogged()` after the attempt, not whether the attempt succeeded. The superadmin nick with a wrong password skips `logIn`. Any other account with wrong credentials calls `logIn`, which is taken to leave Galette's login unchanged on failure. So when Galette is already logged in, in that session, both return the previous login's id and add a `Login` history line (`UserHelper.FailedLogInKeepsPrevious`, `UserHelper.SuperAdminNeverLogsIn`).
- **Commas inside a group.** The groups claim joins the groups with `,` and escapes nothing. A directive entry holding a comma (`#GROUPS:a,b#`) is one group but reads as two names in the claim. "One comma fewer than groups" therefore holds only when no normalised group holds a comma (`UserHelper.GroupsClaimSplits`).
- **The redirect URI the server checks.** `authorize` stores the query's `redirect_uri` in the session before the server validates the request, and the server reads the client's redirect URI back through `getClientEntity`. With a `redirect_uri` in the query, the client URI the server is shown is therefore that same URI, so a check of one against the other cannot fail. Without one, it sees whatever an earlier request left in the session or the cache file (`AuthorizationController.ServerSeesQueryUri`, `AuthorizationController.ServerSeesLeftoverUri`).
- **Redirect URL without a query.** On GET, a truthy `redirect_url` with no query part (or too malformed to parse) makes `parse_url` return null or false. `parse_str` then throws a `TypeError`: no login page is rendered and `request_args` stay as they were.
- **Client secret missing.** The OAuth2 server hands a null secret to `validateClient` when the request carries none. For a `galette_` client, `password_verify` throws a `TypeError` on it. Any other client is refused first, without the throw.

## Model

| member | source | states |
|---|---|---|
| Config.Get | lib/GaletteOAuth2/Tools/Config.php:56-59 | a read of a set key is its value trimmed, of a missing key the default trimmed; the result never starts or ends with whitespace |
| Http.Arg | lib/GaletteOAuth2/Controllers/LoginController.php:98 | reading an array key gives a value exactly when the key is present, and then the stored value |
| UserHelper.LoginAfter | lib/GaletteOAuth2/Authorization/UserHelper.php:41-75 | the Galette login changes only for a non-blank attempt that is not the superadmin's, and then to the session `logIn` reports as logged in with that id; such an attempt that `logIn` accepts always logs in with the accepted id; a failed `logIn` leaves the login as it was |
| UserHelper.AcceptedCredentialsLogIn | lib/GaletteOAuth2/Authorization/UserHelper.php:50-81 | non-blank credentials for another account than the superadmin's, accepted by `logIn` with some id, log Galette in with that id and make `login` return it |
| UserHelper.FailedLogInKeepsPrevious | lib/GaletteOAuth2/Authorization/UserHelper.php:73-85 | a non-blank, non-superadmin attempt that `logIn` refuses returns the previous login's id when Galette was logged in, and false otherwise |
| UserHelper.LoginResult | lib/GaletteOAuth2/Authorization/UserHelper.php:50-85 | an id is returned only for an attempt that is neither blank nor the superadmin's |
| UserHelper.MissingPasswordIsBlank | lib/GaletteOAuth2/Authorization/UserHelper.php:50-52 | when the credentials can be read but the password is missing, the nick is blank: the attempt is refused and the Galette login is untouched, whatever password would have followed |
| UserHelper.Login | lib/GaletteOAuth2/Authorization/UserHelper.php:41-86 | the returned id, the new Galette login, the session login, the flash and the history each equal the specification of `login` (blank refusal, superadmin refusal by bcrypt or md5, `logIn` otherwise) |
| UserHelper.BlankIsTrimEmpty | lib/GaletteOAuth2/Authorization/UserHelper.php:50 | a blank attempt is exactly one where the nick or the password trims to the empty string |
| UserHelper.RefusedOutcome | lib/GaletteOAuth2/Authorization/UserHelper.php:50-71 | a blank or superadmin attempt returns false, leaves the login and the history alone, and flashes only the superadmin refusal |
| UserHelper.AttemptOutcome | lib/GaletteOAuth2/Authorization/UserHelper.php:73-86 | after a non-blank, non-superadmin attempt, `isLogged()` alone decides: the logged id and a `Login` line, or false and an "Authentication failed" line naming the nick; no flash |
| UserHelper.BlankRefused | lib/GaletteOAuth2/Authorization/UserHelper.php:50-52 | a nick that is all whitespace never logs in and leaves the Galette login untouched |
| UserHelper.SuperAdminNeverLogsIn | lib/GaletteOAuth2/Authorization/UserHelper.php:54-75 | the superadmin nick never reaches `logIn`; with the superadmin's right password the result is always false |
| UserHelper.LoginResultIsLoggedId | lib/GaletteOAuth2/Authorization/UserHelper.php:50-85 | `login` succeeds exactly when the attempt is not blank, not the superadmin's, and Galette is logged in afterwards; then it returns the logged id |
| UserHelper.SuccessfulLoginTrail | lib/GaletteOAuth2/Authorization/UserHelper.php:77-81 | a successful login flashes nothing and adds exactly one `Login` history line |
| UserHelper.Logout | lib/GaletteOAuth2/Authorization/UserHelper.php:88-98 | Galette is logged out (its id kept, a modelling choice), the session login follows it, one `Logout` history line is added |
| UserHelper.StripAccents | lib/GaletteOAuth2/Authorization/UserHelper.php:257-265 | the result is lower-case and as long as the transliteration |
| UserHelper.StripAccentsIdempotent | lib/GaletteOAuth2/Authorization/UserHelper.php:257-265 | for any transliterator with the ICU rule's guarantees, stripping twice equals stripping once |
| UserHelper.StripAccentsTestVector | tests/GaletteOAuth2/Authorization/tests/units/UserHelper.php:45-46 | `çéè-ßØ` strips to `cee-sso` with the sample transliterator |
| Transliteration.LatinAsciiTestVector | tests/GaletteOAuth2/Authorization/tests/units/UserHelper.php:45-46 | the sample table transliterates `çéè-ßØ` to `cee-ssO` before lower-casing |
| Transliteration.LatinAsciiIsIcuLike | lib/GaletteOAuth2/Authorization/UserHelper.php:259-263 | the sample table only outputs characters the `Remove` filter keeps, and leaves such strings unchanged |
| UserHelper.Decide | lib/GaletteOAuth2/Authorization/UserHelper.php:131-151 | refused as inactive exactly when inactive; as not in the team exactly when active, `teamonly` is asked and the member is not admin, staff or group manager; as not up to date exactly when the earlier checks pass, `uptodate` is asked and the member is not up to date |
| UserHelper.DecideAllowsIff | lib/GaletteOAuth2/Authorization/UserHelper.php:131-151 | a member is let through exactly when active, in the team if `teamonly` is asked, up to date if `uptodate` is asked |
| UserHelper.GetUserData | lib/GaletteOAuth2/Authorization/UserHelper.php:100-222 | it fails exactly when the decision refuses, with that refusal; on success every claim describes the member (ids, names, normalised login, contact fields, joined phones, state, groups claim) |
| UserHelper.RawGroups | lib/GaletteOAuth2/Authorization/UserHelper.php:154-180 | the status label comes first, and each set flag (`admin`, `staff`, `groupmanager`, `uptodate`) adds its group |
| UserHelper.CollectGroups | lib/GaletteOAuth2/Authorization/UserHelper.php:154-180 | the groups gathered are the status label, the flag groups in fixed order, then the directive's `;`-separated entries |
| UserHelper.NormaliseEach | lib/GaletteOAuth2/Authorization/UserHelper.php:183-188 | the by-reference loop rewrites every group, in order, to its normal form |
| UserHelper.JoinPhones | lib/GaletteOAuth2/Authorization/UserHelper.php:191-200 | phone and mobile joined by `/` when both are set, either alone, or empty |
| UserHelper.UpToHash | lib/GaletteOAuth2/Authorization/UserHelper.php:176 | the capture `[^#]*` followed by `#` exists exactly when the result is that capture |
| UserHelper.DirectiveFromLeftmost | lib/GaletteOAuth2/Authorization/UserHelper.php:176-177 | no result means no `#GROUPS:…#` match at or after the position; a result is the capture of the leftmost match |
| UserHelper.HeaderOfTag | lib/GaletteOAuth2/Authorization/UserHelper.php:176 | `#GROUPS:` is recognised as the directive's header |
| UserHelper.CaptureBeforeHash | lib/GaletteOAuth2/Authorization/UserHelper.php:176 | the capture of a `#`-free text closed by `#` is that text |
| UserHelper.DirectiveAtStart | lib/GaletteOAuth2/Authorization/UserHelper.php:176-177 | a note starting with the directive yields its capture |
| UserHelper.DirectiveEntriesFollowFlags | lib/GaletteOAuth2/Authorization/UserHelper.php:154-180 | with the note `#GROUPS:g#`, the raw groups are the status and flag groups followed by the `;` entries of `g` (the example of the source's comment) |
| UserHelper.Sanitise | lib/GaletteOAuth2/Authorization/UserHelper.php:185 | the result holds no space, `/`, `(` or `)`, and no character the input did not hold but `_` |
| UserHelper.SanitiseIsFourPasses | lib/GaletteOAuth2/Authorization/UserHelper.php:185 | the one-pass rewrite equals `str_replace` with arrays: spaces to `_`, then `/`, `(` and `)` each deleted in a pass of its own |
| UserHelper.FourPassesAppend | lib/GaletteOAuth2/Authorization/UserHelper.php:185 | the four passes split over any concatenation |
| UserHelper.FourPassesChar | lib/GaletteOAuth2/Authorization/UserHelper.php:185 | on one character: a space becomes `_`, `/`, `(` and `)` vanish, anything else stays |
| UserHelper.SanitiseAppend | lib/GaletteOAuth2/Authorization/UserHelper.php:185 | the rewrite of a concatenation is the concatenation of the rewrites |
| UserHelper.CollapseUnderscores | lib/GaletteOAuth2/Authorization/UserHelper.php:186 | the result is no longer than the input, holds only its characters, and keeps its first character |
| UserHelper.CollapseKeepsPlain | lib/GaletteOAuth2/Authorization/UserHelper.php:186 | a string without `_` is left unchanged |
| UserHelper.CollapseAppend | lib/GaletteOAuth2/Authorization/UserHelper.php:186 | cut where no `__` straddles the cut, the pass collapses each side on its own |
| UserHelper.CollapseRemovesDoubles | lib/GaletteOAuth2/Authorization/UserHelper.php:186 | without a run of three underscores, the one-pass replace leaves no `__` |
| UserHelper.CollapseIsOnePass | lib/GaletteOAuth2/Authorization/UserHelper.php:185-186 | `a   b` becomes `a__b`: three spaces leave a double underscore, since the replace is one pass |
| UserHelper.NormaliseGroup | lib/GaletteOAuth2/Authorization/UserHelper.php:184-187 | a normalised group is lower-case |
| UserHelper.NormalisedGroups | lib/GaletteOAuth2/Authorization/UserHelper.php:183-188 | one normalised group per raw group, position by position |
| UserHelper.GroupsClaimSplits | lib/GaletteOAuth2/Authorization/UserHelper.php:189 | when no normalised group holds a comma, the claim splits back into the group list and holds one comma fewer than groups |
| UserHelper.NormaliseGroupAddsNoComma | lib/GaletteOAuth2/Authorization/UserHelper.php:184-187 | normalisation with the sample transliterator adds no comma |
| UserHelper.GroupCountLatinAscii | lib/GaletteOAuth2/Authorization/UserHelper.php:183-189 | with the sample transliterator and comma-free raw groups, the claim holds one comma fewer than groups |
| UserHelper.SingleGroup | lib/GaletteOAuth2/Authorization/UserHelper.php:154-189 | without flags or directive, the claim is the normalised status label alone |
| UserHelper.MemberOneGroups | tests/GaletteOAuth2/Authorization/tests/units/UserHelper.php:82 | the test member (status `Non-member`, no flag, empty note) gets the groups claim `non-member` |
| UserHelper.Tokens | lib/GaletteOAuth2/Authorization/UserHelper.php:108 | `preg_split('/[\s,-]+/')` gives at least one piece and no piece holds a separator |
| UserHelper.TokensSplitAtRuns | lib/GaletteOAuth2/Authorization/UserHelper.php:108 | the name is its pieces with one non-empty run of separators between each two, so the cuts fall exactly at the maximal runs |
| UserHelper.TokensKeepLetters | lib/GaletteOAuth2/Authorization/UserHelper.php:108 | the pieces, concatenated, are the name without its separators |
| UserHelper.SecondTokenIff | lib/GaletteOAuth2/Authorization/UserHelper.php:108-116 | there is a second piece exactly when the name holds a separator |
| UserHelper.TokensOfTwo | lib/GaletteOAuth2/Authorization/UserHelper.php:108 | two words around one space split into those two words |
| UserHelper.NamePart | lib/GaletteOAuth2/Authorization/UserHelper.php:108-119 | the name part holds no separator; it is the first two pieces joined exactly when there is a second piece and the first is shorter than four characters, and the first piece otherwise |
| UserHelper.NamePartStartsLetters | lib/GaletteOAuth2/Authorization/UserHelper.php:108-116 | the name part is a prefix of the name with its separators removed |
| UserHelper.ShortPieceJoined | lib/GaletteOAuth2/Authorization/UserHelper.php:111-116 | a first piece shorter than four characters is joined with the second |
| UserHelper.ShortFirstPiece | lib/GaletteOAuth2/Authorization/UserHelper.php:111-116 | `Le Gall` gives the name part `LeGall` |
| UserHelper.FirstChar | lib/GaletteOAuth2/Authorization/UserHelper.php:124 | `mb_substr(…, 0, 1)` is a prefix of at most one character, exactly one for a non-empty string |
| UserHelper.NormalisedLoginShape | lib/GaletteOAuth2/Authorization/UserHelper.php:123-126 | the login is lower-case: the stripped given name's initial (none when empty), a dot, the stripped name part |
| UserHelper.MemberOneLogin | tests/GaletteOAuth2/Authorization/tests/units/UserHelper.php:71-73 | family name `Durand`, given name `René` give the login `r.durand` |
| UserHelper.MergeOptionsMembers | lib/GaletteOAuth2/Authorization/UserHelper.php:225-239 | each value occurs once; a value is an option exactly when it is a scope or, with a configured value, a configured option |
| UserHelper.MergeOptionsOrder | lib/GaletteOAuth2/Authorization/UserHelper.php:227-235 | configured options first in their order, then the scopes not configured, in theirs; only the scopes without a configured value |
| UserHelper.MergeOptionsAddedScopes | lib/GaletteOAuth2/Authorization/UserHelper.php:229-235 | with a configured value, the configured options come first and the values after them are exactly the scopes the configuration does not name |
| Strings.UniqueAppend | lib/GaletteOAuth2/Authorization/UserHelper.php:233-235 | `array_unique` of a concatenation keeps the first list's values, then the second's not already seen |
| Strings.ExplodeImplode | lib/GaletteOAuth2/Authorization/UserHelper.php:189 | splitting a comma-joined list of comma-free entries gives the list back |
| Strings.WithoutMembers | lib/GaletteOAuth2/Authorization/UserHelper.php:233-235 | the values of the second list that survive `array_unique` after the first are exactly those not already in the first |
| Strings.UniqueMembers | lib/GaletteOAuth2/Authorization/UserHelper.php:235 | `array_unique` keeps exactly the values of its input |
| Strings.UniqueNoDuplicates | lib/GaletteOAuth2/Authorization/UserHelper.php:235 | `array_unique` keeps each value once |
| Strings.Trim | lib/GaletteOAuth2/Tools/Config.php:58 | the result neither starts nor ends with whitespace, and a string that neither starts nor ends with whitespace is its own trim |
| Strings.TrimEmptyIff | lib/GaletteOAuth2/Authorization/UserHelper.php:50 | a string trims to empty exactly when it is all whitespace |
| Strings.Explode | lib/GaletteOAuth2/Authorization/UserHelper.php:179 | `explode` gives at least one piece and no piece holds the separator |
| Strings.ExplodeLength | lib/GaletteOAuth2/Authorization/UserHelper.php:232 | `explode` gives one piece more than the separators in the input |
| Strings.ImplodeExplode | lib/GaletteOAuth2/Authorization/UserHelper.php:189 | joining the pieces of a split gives the input back |
| Strings.ReplaceChar | lib/GaletteOAuth2/Authorization/UserHelper.php:231 | `str_replace` of one character by another: same length, each occurrence replaced and every other character kept in place |
| Strings.RemoveChar | lib/GaletteOAuth2/Authorization/UserHelper.php:185 | deleting a character: the result holds no occurrence of it and only characters of the input |
| Strings.RemoveCharAppend | lib/GaletteOAuth2/Authorization/UserHelper.php:185 | deleting a character splits over a concatenation |
| Strings.Contains | lib/GaletteOAuth2/Repositories/ClientRepository.php:79 | `preg_match('/galette_/')` on a literal pattern holds exactly when the text occurs at some position |
| LoginController.RequestOptionsMembers | lib/GaletteOAuth2/Controllers/LoginController.php:116-120 | the options checked are each present once: the requested scopes, and the client's configured options when it has a configured value |
| LoginController.ContinuationQuery | lib/GaletteOAuth2/Controllers/LoginController.php:143-151 | the `/authorize` query holds exactly the five OAuth2 parameters present in `request_args`, with their values |
| LoginController.ContinuationIgnoresOthers | lib/GaletteOAuth2/Controllers/LoginController.php:143-149 | no other captured argument reaches `/authorize` |
| LoginController.FormPage | lib/GaletteOAuth2/Controllers/LoginController.php:182-193 | the login page is rendered; without a configured title the application is `noname` |
| LoginController.FormPageConfigured | lib/GaletteOAuth2/Controllers/LoginController.php:184-185 | a configured title, trimmed, names the application |
| LoginController.LogoutTarget | lib/GaletteOAuth2/Controllers/LoginController.php:166-174 | logout goes to the client's `redirect_logout`, and to `/` without a truthy client id or without that setting |
| LoginController.SecondLogoutGoesHome | lib/GaletteOAuth2/Controllers/LoginController.php:166-174 | after a logout has cleared `request_args`, logout goes to `/` |
| LoginController.Controller.LoginGet | lib/GaletteOAuth2/Controllers/LoginController.php:64-86 | a truthy `redirect_url` with a query replaces `request_args` by the parsed query and renders the form; one without a query throws a `TypeError` and leaves `request_args`; without a truthy `redirect_url` they stay and the form is rendered. The login page is rendered exactly when no error is thrown |
| LoginController.Controller.LoginPost | lib/GaletteOAuth2/Controllers/LoginController.php:94-157 | a missing `login`, or a missing `password` after a non-blank `login`: an uncaught `TypeError` with `isLoggedIn` `no` and nothing else changed. Otherwise `user_id` is the login result; bad credentials: 301 to login, flash, `isLoggedIn` `no`; valid credentials without `scope`: Galette logged in, one `Login` history line, then an uncaught `TypeError`; refused member: 301, logged out, reason flashed, `isLoggedIn` `no`; otherwise 302 to `/authorize` with the continuation query and `isLoggedIn` `yes`. The middleware admits the session exactly when the credentials are readable, the login succeeds, `scope` is present and the decision passes |
| LoginController.Controller.CheckRights | lib/GaletteOAuth2/Controllers/LoginController.php:122-156 | after a successful login, with `scope` present: the refusal logs out and flashes its message, otherwise `isLoggedIn` turns `yes` and the user continues to `/authorize` |
| LoginController.Controller.Logout | lib/GaletteOAuth2/Controllers/LoginController.php:159-180 | Galette logout; `user_id` unset, `isLoggedIn` `no`, `request_args` emptied; 302 to the previous client's logout target; the middleware no longer admits the session |
| Authentication.LoginRedirect | lib/GaletteOAuth2/Middleware/Authentication.php:65-77 | a 302 to the login route whose only parameter is `redirect_url`, the original request URI |
| Authentication.Invoke | lib/GaletteOAuth2/Middleware/Authentication.php:61-85 | a session with `isLoggedIn` `yes` reaches the handler; every other is redirected to login |
| Authentication.UnsetFlagRedirects | lib/GaletteOAuth2/Middleware/Authentication.php:63-65 | an unset flag, or any value but `yes`, is refused |
| Authentication.RedirectIgnoresHandler | lib/GaletteOAuth2/Middleware/Authentication.php:65-77 | on the refused path the handler plays no part and the answer is a redirect |
| RedirectBinding.Bind | lib/GaletteOAuth2/Controllers/AuthorizationController.php:76-103 | without `redirect_uri` nothing changes; with it the session entry is always set, and configuration slot and cache file are set together exactly when the slot is empty |
| RedirectBinding.Resolve | lib/GaletteOAuth2/Repositories/ClientRepository.php:57-62 | the session entry first, then the cache file; nothing when neither exists |
| RedirectBinding.ResolveAfterBind | lib/GaletteOAuth2/Repositories/ClientRepository.php:57-62 | in the session that bound it, the client resolves to the URI just bound |
| RedirectBinding.ResolveFromOtherSession | lib/GaletteOAuth2/Controllers/AuthorizationController.php:85-95 | another session sees the bound URI exactly when the slot was empty or the cache already held it |
| RedirectBinding.LastBinderWins | lib/GaletteOAuth2/Controllers/AuthorizationController.php:85-97 | with the configuration reloaded per request, a second bind overwrites the cache file for every other session |
| AuthorizationController.ErrorResponse | lib/GaletteOAuth2/Controllers/AuthorizationController.php:152-159 | a server exception renders its own response; any other `Exception` becomes a 500 with the message as body; a PHP `Error` such as `TypeError` is no `Exception` and escapes uncaught |
| AuthorizationController.Approve | lib/GaletteOAuth2/Controllers/AuthorizationController.php:109-142 | the request handed on carries the session's user id and is approved, client and scopes unchanged |
| AuthorizationController.OnlyApprovedRequestsComplete | lib/GaletteOAuth2/Controllers/AuthorizationController.php:107-151 | the server only ever completes an approved request for the session's user, and its answer (or error) is the response |
| AuthorizationController.RejectedNeverCompletes | lib/GaletteOAuth2/Controllers/AuthorizationController.php:107 | a request the server rejects never reaches completion |
| AuthorizationController.Controller.Authorize | lib/GaletteOAuth2/Controllers/AuthorizationController.php:70-159 | the new session, configuration and cache are the bind of the old ones, and the response is the server's outcome for the session's user, the server being shown the redirect URI the repository resolves from the new state |
| AuthorizationController.ServerSeesQueryUri | lib/GaletteOAuth2/Controllers/AuthorizationController.php:73-107 | with a `redirect_uri` in the query, the URI the server is shown as the client's is that same URI, whatever earlier requests left |
| AuthorizationController.ServerSeesLeftoverUri | lib/GaletteOAuth2/Repositories/ClientRepository.php:57-62 | without a `redirect_uri` in the query, the server is shown the session's entry for the client, else the cache file's, else nothing |
| ClientRepository.Identifier | lib/GaletteOAuth2/Repositories/ClientRepository.php:55 | the configured `.id`, trimmed, or the client id itself, trimmed |
| ClientRepository.GetClientEntity | lib/GaletteOAuth2/Repositories/ClientRepository.php:52-75 | a fresh confidential entity with that identifier, the client id as name, and the resolved redirect URI |
| ClientRepository.RedirectConfigUnused | lib/GaletteOAuth2/Repositories/ClientRepository.php:63-69 | the configured redirect URIs play no part in the entity's identifier (the `$cid` read is unused) |
| ClientRepository.ValidateClient | lib/GaletteOAuth2/Repositories/ClientRepository.php:77-92 | a client id without `galette_` is refused, secret or not; a `galette_` client without a secret throws a `TypeError`, and only then; an accepted client id holds `galette_` |
| ClientRepository.ValidateClientIff | lib/GaletteOAuth2/Repositories/ClientRepository.php:77-92 | with sound password functions and a secret given, accepted exactly when the id holds `galette_` and the secret is the global password |
| ClientRepository.OneSecretForAll | lib/GaletteOAuth2/Repositories/ClientRepository.php:85-91 | any two `galette_` clients accept the same secrets |

Functions without a contract of their own are covered by the lemmas beside them:
`UserHelper.MergeOptions` by `UserHelper.MergeOptionsMembers`, `UserHelper.MergeOptionsOrder` and `UserHelper.MergeOptionsAddedScopes`,
`LoginController.RequestOptions` by `LoginController.RequestOptionsMembers`,
`UserHelper.GroupsClaim` by `UserHelper.GroupsClaimSplits`,
`UserHelper.DirectiveFrom` by `UserHelper.DirectiveFromLeftmost`,
`UserHelper.NormalisedLogin` by `UserHelper.NormalisedLoginShape`,
`AuthorizationController.Outcome` by `AuthorizationController.OnlyApprovedRequestsComplete` and `AuthorizationController.RejectedNeverCompletes`,
`Strings.Implode` by `Strings.ImplodeExplode`, `Strings.ExplodeImplode` and `Strings.ImplodeCount`,
and `Strings.Unique` by `Strings.UniqueMembers`, `Strings.UniqueNoDuplicates` and `Strings.UniqueAppend`.

## Left out

- ICU: `transliterator_transliterate` is a parameter. The model states two facts the rule guarantees: its output is within the `Remove` filter's set, and kept strings pass unchanged. `Transliteration.LatinAscii` is a small sample table: French accented letters, `ß`, `Ø`. It is not the full `Any-Latin; Latin-ASCII` rule.
- `mb_strtolower`: lower-cases ASCII letters only. The transliteration leaves nothing else to lower, so this loses nothing.
- Regular-expression case folding: the `/i` flag of the `#GROUPS:` pattern is modelled for ASCII letters only.
- Password hashing: `password_verify`, `password_hash` and `md5` are parameters, and `Runtime.Sound` states the one fact the proofs use. bcrypt's truncation of long secrets is not modelled.
- Galette core: `Login::logIn`, `isLogged`, the `Adherent` loaded from the database, history and flash storage are not part of this model. They are a function parameter, a member record and sequence fields.
- The OAuth2 server: `validateAuthorizationRequest` is a parameter reading the query and the client's redirect URI as `getClientEntity` resolves it, and `completeAuthorizationRequest` one reading the request it is handed; what the library does inside them is not modelled. The `token` endpoint, the token and scope repositories, and key handling are not part of this model.
- Not part of this model: `ApiController`, `Debug`, `UserRepository`, the stub repositories, routes and container wiring. They hold no decision of the core.
- `_T` translation: messages are kept in their English source form.
- URL handling: `urldecode` with `parse_url(…, PHP_URL_QUERY)` is one parameter that returns the query or nothing, and `parse_str` is another that returns a flat map. PHP array-valued query parameters are not modelled.
- Routing: building Location URLs is not modelled. Responses carry the route, status and query parameters.
- Rendered output: the HTTP reason phrase, the rendered template and the body of a server exception's response (`Http.Library`) are opaque.
- Concurrency: each request is one atomic step. Two logins racing on the same cache file are modelled only as one bind after another (`RedirectBinding.LastBinderWins`).
- File I/O: a failing `fopen`/`fwrite`, and a `file_get_contents` warning, are not modelled. A missing cache file reads as no redirect URI.
- Session storage: session fields named after a client id could collide with the bridge's own fields (`isLoggedIn`, `user_id`). The model keeps the client entries in a separate map.
- `array_unique` keeps the original array keys, so the result may have gaps. `UserHelper.MergeOptions` returns the values in order without keys, and only `in_array` reads them.
- Configuration: nested YAML keys are flattened to dotted strings, and every value is a string.
- UserHelper.Logout: Galette's `Login::logOut` is not part of this model, so what it does to the stored id is not known. The model keeps the id, and nothing reads the id of a login that is not logged.
- UserHelper.StripAccents: its contract states lower case and length only. The rest is proved in `UserHelper.StripAccentsIdempotent` for ICU-like transliterators.
