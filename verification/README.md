# Verification of the webauth session library

This project models the stateful and parsing parts of `webauth`, an OpenID Connect session library,
and proves what they promise. `dafny verify dfyconfig.toml` checks it all.

## What is modelled

- **Key-set cache** (`KeySetDocument`, `KeySetCache`, `JwtVerifier`). Reading a JWK Set (section 5 of
  RFC 7517) is a loop proved against a reference that says which sets are acceptable and what they
  hold. The shared cache is a machine whose atomic steps are the field reads, clock reads, field
  writes, lock operations and fetches of any number of `verify` calls; a run is any sequence of
  steps. `JwtVerifier` is the same object for calls that do not overlap.
- **Sessions** (`SessionLifetime`, `SessionStore`, `RefreshGrant`, `RelyingParty`, `SessionProtocol`,
  `RotationSafety`). The lifetime arithmetic; a store that keeps the contracts of `ports.py`; the
  refresh grant as transaction, unlocked call, transaction, in steps and as the two methods; a machine in which admissions, grants
  and every store call interleave step by step; and the rotation of refresh tokens (section 6 of
  RFC 6749) against an issuer that revokes a token on use.
- **Sign-in** (`Admission`, `SignIn`). Group paths, roles, accounts, session pruning and the audit
  log, as classes and methods for each entry, and as runs of entries from empty stores.
- **Rate limiters** (`RateLimit`). The in-process limiter and the Lua script, each refining one
  plain log of every event ever allowed.
- **Codecs and parsers** (`Base64Url`, `Base64Number`, `PendingLogin`, `CookieJar`, `ForwardedChain`, `ReturnPath`,
  `CallbackQuery`). The pending-login cookie and its eviction, the right-to-left scan of forwarded
  fields, the return-path judge against section 5.2.4 of RFC 3986, and the two readers of one
  callback query, joined in one callback that takes a cookie and asks for a token. A browser's jar
  knows where each cookie is held, as the program sets and deletes host-only cookies under `Path=/` alone.
- **Response guards** (`ResponseGuards`). The route answer, the body-size limit and the security
  headers as wrappers around an arbitrary app. An app is a strategy from what its awaits gave to
  what it does next, and every await may fail, so one statement covers every behaviour.

`Wrappers`, `Collections` and `Text` hold shared datatypes and facts on sequences.

## What the proofs found

- **A renewal can cost a session its rotation.** `_kept_after_grant` reads the row and then the clock.
  An admission that renews the row between the two, in its last second, makes the call judge a row
  that no longer is: it answers SESSION_ENDED and drops the rotation, while the session lives on with
  a token the issuer has revoked. `RotationSafety.RotationIsAlwaysKeptExactly` gives the condition on
  the configuration: no run loses a live session's rotation if and only if the idle window equals the
  cap. Run by run, `RotationIsKeptExactly` says that such a judgement is the only way, `RotationIsKept`
  that a transaction undisturbed by a renewal never loses a rotation, and
  `SplitTransactionLosesTheRotation` builds the losing run for every cap above the idle window.
- **An access-token grant drops a rotation when the access token is unusable.** `_renewed_access`
  reads the access token before the refresh token; `_refreshed_groups` keeps the rotation in every
  case (`RelyingParty.RotationSurvivesTheIdToken`).
- **The cap and the single use of a pending login need `__Host-` names.** The program deletes and
  replaces only its own cookies, host-only under `Path=/`. Of those a start leaves at most five in any
  jar a browser can hold, forged ones included, but cookies of pending names held under another path
  or a parent domain stay (`CookieJar.StartLeavesAtMostFive`; `CookiesAfterAStart` counts exactly).
  Browsers refuse a `__Host-` name there, so "at most five" and "works once" hold for every browser on
  a secure host, and on no other (`CapHoldsExactlyOnSecureHosts`, `LoginsAreTakenOnceExactlyOnSecureHosts`).
  The failing inputs on a plain host: five cookies under other paths, and six after a start
  (`ScatteredCookiesExceedTheCap`); one copied cookie, taken by every callback (`CopyIsTakenAgain`)
  and asking for a token each time (`CallbackQuery.CopyRequestsAToken`).
- **No field is not an empty field.** Without any forwarded field the scan yields no entry, while
  joining, splitting and stripping would yield one empty entry; the two agree exactly when there is a
  field (`ForwardedChain.ScanIsSplittingExactly`).
- **UNKNOWN_KEY_ID can miss a newer set.** A call reads the failure flag after it took its snapshot.
  `KeySetCache.OverlappingCallsMissTheLatestSet` gives a run in which a call answers UNKNOWN_KEY_ID
  although the latest fetch has succeeded and its set holds that very key id. For every interleaving
  `UnknownKeyIdExactly` says when the answer does rest on the latest attempt: if and only if no call
  published between the two reads and no attempt's outcome was outstanding at the second.

## Model

| member | source | states |
|---|---|---|
| `Base64Url.DecodeUndoesEncode` | src/webauth/cookies.py:372-381 | decoding gives back exactly the bytes encoded, for every byte string |
| `Base64Url.EncodeIsInjective` | src/webauth/jwt_verification.py:465-472 | no two byte strings share an unpadded base64url spelling |
| `Base64Number.EncodeKeepsTheNumber` | src/webauth/jwt_verification.py:465-472 | a spelling read as one number in base 64 is the big-endian number of its bytes, filled up with zero bits |
| `Base64Number.SymbolsInOrder` | src/webauth/jwt_verification.py:465-472 | the 64 symbols in the order of section 5 of RFC 4648 |
| `Base64Number.BytesByPlace` | src/webauth/jwt_verification.py:570-571 | each byte of a key's number counts by its big-endian place, and the bytes of one length are the numbers below a power of 256 |
| `KeySetDocument.Rs256VerificationKeys` | src/webauth/jwt_verification.py:501-519 | the loop over the entries, stopping at its first refusal, computes the specification the lemmas below are about |
| `KeySetDocument.AcceptedSpellingIsUnique` | src/webauth/jwt_verification.py:465-472 | whatever the lenient decoder does, an accepted number is the one spelling of its bytes |
| `KeySetDocument.NumbersAreTheSpellings` | src/webauth/jwt_verification.py:465-472 | with a decoder that reads every canonical spelling the accepted numbers are exactly the canonical spellings of some bytes |
| `KeySetDocument.SomeDecoderReadsSpellings` | src/webauth/jwt_verification.py:465-472 | and such decoders exist, whatever the signatures do |
| `KeySetDocument.OneKeyExactly` | src/webauth/jwt_verification.py:545-571 | the reader of one entry succeeds exactly on a well-formed key, with its id and its numbers |
| `KeySetDocument.EntryTestsExactly` | src/webauth/jwt_verification.py:522-542 | an entry publishes no secret exactly if it has none of the eight members, and is eligible exactly if it is an RSA key none of whose `alg`, `use` and `key_ops` rules out RS256 verification |
| `KeySetDocument.ReadingMatchesTheReference` | src/webauth/jwt_verification.py:501-529 | reading succeeds exactly on the readable sets and then holds exactly their eligible keys |
| `KeySetDocument.AcceptedExactly` | src/webauth/jwt_verification.py:501-567 | accepted if and only if every entry is an object without a secret, 1 to 10 are eligible, each of those has an id of 1 to 128 characters or none, canonical numbers and at least 2048 bits, and key ids are distinct; `sole` exactly for one eligible key |
| `KeySetDocument.FirstRefusalDecides` | src/webauth/jwt_verification.py:501-567 | the first entry that is refused decides the failure of the whole set: which entry, and which of seven failures, told by the entries up to it |
| `KeySetDocument.OnlyEmptyReadableSetsAreRefused` | src/webauth/jwt_verification.py:501-519 | a set without a refused entry is refused exactly for holding no key |
| `KeySetDocument.OrderDoesNotMatter` | src/webauth/jwt_verification.py:501-519 | acceptance and the keys held are the same for every permutation of the entries |
| `KeySetDocument.PassedOverEntriesDoNotMatter` | src/webauth/jwt_verification.py:522-542 | an ineligible entry without a secret, anywhere, changes nothing, failure codes included |
| `KeySetDocument.ParsedExactly` | src/webauth/jwt_verification.py:486-498 | a document is accepted exactly when it is at most 65536 bytes, a JSON object, and its key list acceptable, whose keys it then holds; each earlier refusal has its own condition |
| `KeySetCache.EveryRunKeepsInv` | src/webauth/jwt_verification.py:321-376 | in every interleaving the fields tell the history of refreshes, the lock's holder alone refreshes, and every call's snapshot was published |
| `KeySetCache.OneRefreshAtATime` | src/webauth/jwt_verification.py:347-352 | in every interleaving at most one call is inside the refresh, hence inside the fetch |
| `KeySetCache.FetchesAreRateLimited` | src/webauth/jwt_verification.py:353-359 | consecutive attempts are stamped at least 30 s apart and an interval of length T holds at most T/30 + 1, whatever the fetches answer |
| `KeySetCache.PublishedIsTheLatestSuccess` | src/webauth/jwt_verification.py:360-374 | the shared set is the parse of the latest successful fetch |
| `KeySetCache.OnlyASuccessReplacesTheKeySet` | src/webauth/jwt_verification.py:360-374 | an action changes the shared set only by publishing a success, under a strictly later stamp |
| `KeySetCache.StampNeverDecreases` | src/webauth/jwt_verification.py:369-371 | however a run goes on, the set is never lost and its stamp never decreases |
| `KeySetCache.HandedOutKeysAreFresh` | src/webauth/jwt_verification.py:321-345 | every key handed out is the very key named by its id, or the sole one for a token without id, in a published set less than 3600 s old at a clock reading inside the call |
| `KeySetCache.AnswerExactly` | src/webauth/jwt_verification.py:321-345 | which key one set answers with, and each of the three refusals under its own condition |
| `KeySetCache.UnknownKeyIdIsForgedInSequence` | src/webauth/jwt_verification.py:332-339 | in sequential runs UNKNOWN_KEY_ID is answered exactly when the set is current, lacks the id and the latest attempt succeeded |
| `KeySetCache.UnknownKeyIdExactly` | src/webauth/jwt_verification.py:321-376 | in every interleaving a lookup lacking in a current set answers UNKNOWN_KEY_ID exactly when the latest recorded attempt succeeded, and rests on the latest attempt and its set exactly when nothing was published between its reads and nothing is outstanding |
| `KeySetCache.SequentialCallsAnswerFromTheAttempts` | src/webauth/jwt_verification.py:321-339 | a sequential run answers every call by the same function of attempts and last clock reading as the object's method |
| `KeySetCache.OverlappingCallsMissTheLatestSet` | src/webauth/jwt_verification.py:321-339 | overlapping calls can answer UNKNOWN_KEY_ID while the latest successful set holds the key id |
| `KeySetCache.SharedSetIsAcceptable` | src/webauth/jwt_verification.py:360-371 | in every interleaving the shared set is what one fetched, acceptable document holds |
| `JwtVerifier.JwtVerifier.RefreshKeySet` | src/webauth/jwt_verification.py:347-376 | an attempt is recorded exactly when the cooldown is over, and the fields again tell the history |
| `JwtVerifier.JwtVerifier.SigningKey` | src/webauth/jwt_verification.py:321-339 | each answer, the very key of the latest set, and each refusal, in both directions, by the attempts made and the last clock reading, as the machine's sequential runs answer |
| `SessionLifetime.ExactLifetime` | src/webauth/dependencies.py:352-379 | requests in order are all admitted if and only if no gap exceeds the idle window and the last lies within the cap |
| `SessionLifetime.RefusalIsFinal` | src/webauth/dependencies.py:407-418 | stored expiries never decrease, and after a refusal every later request is refused |
| `SessionLifetime.OnlyPassedExpiryRefuses` | src/webauth/dependencies.py:367-379 | with requests in order only the passed expiry can refuse |
| `SessionLifetime.OnlyPassedExpiryRefusesBehindSkewedClocks` | src/webauth/dependencies.py:352-379 | the same for several processes whose clocks differ by at most 60 s |
| `SessionLifetime.WholeSecondExactly` | src/webauth/dependencies.py:352-353 | the whole second is the reading cut toward zero |
| `SessionStore.SessionStore.Create` | src/webauth/ports.py:181-204 | a new id, never handed out before, and exactly one new row |
| `SessionStore.SessionStore.Load` | src/webauth/ports.py:206-220 | the stored row, or none |
| `SessionStore.SessionStore.Touch` | src/webauth/ports.py:222-240 | renews that row's expiry alone and says so; never creates a row |
| `SessionStore.SessionStore.ReplaceRefreshToken` | src/webauth/ports.py:242-256 | replaces that row's refresh token alone and says so; never creates a row |
| `SessionStore.SessionStore.Delete` | src/webauth/ports.py:258-261 | drops the row; an unknown id is no error |
| `SessionStore.SessionStore.DeleteForUser` | src/webauth/ports.py:263-263 | drops exactly the user's rows and counts them |
| `SessionStore.SessionStore.PruneOverflow` | src/webauth/ports.py:265-270 | as many of the user's sessions stand as there is room for, none of those ended newer than one kept, and nobody else's ends |
| `SessionStore.AdmitSession` | src/webauth/dependencies.py:382-431 | admits exactly a row created at most 60 s ahead whose expiry has not passed and lies within idle window, 60 s and cap, renews that row alone to the earlier of idle window and cap, and changes nothing on a refusal |
| `RefreshGrant.EvidenceOfStandingSession` | src/webauth/oidc_login.py:394-409 | which refusal, or the row's own token and subject |
| `RefreshGrant.KeptAfterGrant` | src/webauth/oidc_login.py:333-352 | a rotation is stored exactly when the session stands and the token differs from the one sent |
| `RefreshGrant.FreshAccessToken` | src/webauth/oidc_login.py:276-330 | the whole call between its two transactions answers and stores as the undisturbed steps do |
| `RefreshGrant.FreshAccessTokenExactly` | src/webauth/oidc_login.py:276-352 | an undisturbed call answers SIGN_IN_AGAIN exactly for `invalid_grant`, the answer's own token exactly where the session still stands, and changes nothing but the row's refresh token to the answer's |
| `RefreshGrant.CurrentGroups` | src/webauth/oidc_login.py:361-391 | the same for the groups |
| `RefreshGrant.CurrentGroupsExactly` | src/webauth/oidc_login.py:361-417 | the rotation is stored whatever becomes of the ID token; its groups are handed out exactly if it holds for the session's own subject, and each other case is its own refusal |
| `RelyingParty.RotationSurvivesTheIdToken` | src/webauth/oidc/_relying_party.py:377-406 | a groups grant keeps the rotation whatever the ID token; an access-token grant keeps it exactly when the access token is usable |
| `RelyingParty.AccessExactly` | src/webauth/oidc/_relying_party.py:374-383 | an access token is yielded exactly from a usable answer of the bearer type, with the answer's rotation; each refusal under its own condition |
| `RelyingParty.GroupsExactly` | src/webauth/oidc/_relying_party.py:385-424 | groups are yielded exactly from a verified ID token without a nonce, for this client, of the session's own subject and fresh, and are the token's; each refusal under its own condition |
| `RelyingParty.BearerTokenExactly` | src/webauth/oidc/_relying_party.py:702-713 | a bearer token is one or more token characters and then only padding |
| `RelyingParty.BearerExactly` | src/webauth/oidc/_relying_party.py:702-708 | the token type is `bearer` in any case |
| `SessionProtocol.NoSessionOutlivesItsCap` | src/webauth/dependencies.py:356-364 | in every interleaving every stored expiry is at most created plus cap |
| `SessionProtocol.DeletedSessionNeverReappears` | src/webauth/ports.py:206-246 | a session gone at some point of a run never comes back |
| `SessionProtocol.AdmittedMeansTheRowStood` | src/webauth/dependencies.py:407-431 | an admitted call's row was there at its load and its touch, inside its lifetime at the one clock reading, and belongs to who is admitted |
| `SessionProtocol.UndisturbedAdmission` | src/webauth/dependencies.py:407-431 | undisturbed, the three steps admit, renew and refuse exactly as the documented bounds say |
| `SessionProtocol.AskSendsTheTokenOfAStandingRow` | src/webauth/oidc_login.py:394-409 | the token sent to the issuer is the one its row held at a load at which it stood |
| `SessionProtocol.HandedOutMeansTheSessionStood` | src/webauth/oidc_login.py:317-352 | a token, the answer's own, or a group list, that of a verified ID token of the session's own subject, is handed out only if the row stood at the load after the grant, and a rotation was stored first in a row that still stood |
| `SessionProtocol.OnlyARotationIsWritten` | src/webauth/oidc_login.py:333-352 | a grant writes only a token the issuer answered this very call with and that differs from the one sent |
| `SessionProtocol.GrantsChangeOnlyRefreshTokens` | src/webauth/oidc_login.py:276-428 | grants create no row, end none and change no field but the refresh token |
| `RotationSafety.EveryRunKeepsInv` | src/webauth/oidc_login.py:316-391 | in every run a live row with a refresh token holds the honoured one, or its one call under way carries it, or a call was overtaken |
| `RotationSafety.RotationIsKeptExactly` | src/webauth/oidc_login.py:333-352 | at rest a live session holds the honoured token if and only if no call judged a stale load of it |
| `RotationSafety.UnsplitRunOvertakesNothing` | src/webauth/oidc_login.py:340-349 | without a renewal between load and judgement no call is ever overtaken |
| `RotationSafety.RotationIsKept` | src/webauth/oidc_login.py:316-391 | so every live session at rest holds the honoured token, whatever the ID tokens' verdicts |
| `RotationSafety.SplitTransactionLosesTheRotation` | src/webauth/oidc_login.py:341-346 | the condition is needed: a run in which a renewal in between loses the rotation |
| `RotationSafety.RotationIsAlwaysKeptExactly` | src/webauth/oidc_login.py:333-352 | in every run from every clock each live session at rest holds the honoured token, if and only if the configured idle window equals the cap |
| `Admission.HoldsBySegment` | src/webauth/admission.py:94-99 | a group counts for a path exactly when the path's segments begin its own |
| `Admission.AdminExactly` | src/webauth/admission.py:110-130 | in a valid configuration the admin role needs the admin group and nothing else |
| `Admission.RoleExactly` | src/webauth/admission.py:110-130 | nobody outside the login group has a role; inside it the admin group's members are admins and all others users, by path segment |
| `Admission.ValidExactly` | src/webauth/admission.py:75-79 | with both groups set a configuration is valid exactly if the admin group lies strictly below the login group |
| `SignIn.UserStore.CreateForSubject` | src/webauth/ports.py:145-151 | a taken username is refused and writes nothing; otherwise exactly one new account |
| `SignIn.UserStore.SetRole` | src/webauth/ports.py:153-160 | changes that account's role alone; an unknown account is a failure that changes nothing |
| `SignIn.WithRole` | src/webauth/oidc_login.py:620-640 | a differing role is written and recorded with the one it replaces; an equal one writes nothing |
| `SignIn.Provision` | src/webauth/oidc_login.py:643-663 | creates and records the account, or writes nothing for a taken name |
| `SignIn.AdmitAccount` | src/webauth/oidc_login.py:587-617 | the whole new account table and log, for a known and a new subject |
| `SignIn.WriteSignIn` | src/webauth/oidc_login.py:165-204 | the account; then, told by the rows alone, the replaced session gone, of the account's others the newest `max_sessions - 1` kept, everybody else's untouched, and the new session one idle window long; or nothing at all |
| `SignIn.IdTokenOfEndedSession` | src/webauth/oidc_login.py:233-239 | the ended row's ID token, and the row gone |
| `SignIn.ReceiveBackchannelLogout` | src/webauth/oidc_login.py:464-474 | a known subject loses every session and nobody else any, recorded once exactly if there was one; an unknown one changes nothing |
| `SignIn.NoAccountExceedsTheCap` | src/webauth/oidc_login.py:193-197 | over every run from empty stores no account holds more than `max_sessions` sessions |
| `SignIn.SignInEndsOnlyItsOwn` | src/webauth/oidc_login.py:180-197 | a sign-in ends nobody else's session but the replaced one, and of its own none newer than one it keeps |
| `SignIn.SignInExactly` | src/webauth/oidc_login.py:165-204 | in every run a sign-in leaves the sessions exactly so, or everything as it was; some pruning lets every admitted one happen |
| `SignIn.LogoutExactly` | src/webauth/oidc_login.py:233-239 | a logout ends the one session it names, a back-channel logout all of a known subject's, and neither any other |
| `SignIn.AdmittedExactly` | src/webauth/oidc_login.py:493-554 | admitted are exactly those the bound issuer vouched for who belong to the login group and whose new name is not taken, as the role their groups give |
| `SignIn.AdmissionExactly` | src/webauth/oidc_login.py:587-663 | an admission changes the one account, names a new one and keeps a known one's name, and records a creation or a differing role and nothing else |
| `SignIn.UsernameExactly` | src/webauth/oidc_login.py:666-669 | a new account is named by the suggestion unless that is missing or all whitespace, and then by the subject |
| `SignIn.UniqueNamesStayUnique` | src/webauth/ports.py:145-151 | where the store refuses a taken name no run gives two accounts one name |
| `SignIn.AuditReplaysToTheStoredRoles` | src/webauth/oidc_login.py:614-663 | replaying the log gives exactly the stored roles, with matching previous-role links |
| `SignIn.RoleIsThatOfTheLatestAdmission` | src/webauth/oidc_login.py:493-554 | each stored role is that of the subject's latest admission, and no admission means no account |
| `SignIn.NamesStayAndTakenNamesWriteNothing` | src/webauth/oidc_login.py:594-617 | no admission renames an account, and a taken name leaves every store as it was |
| `RateLimit.SingleProcessRateLimitBackend.SweepExpiredWhenDue` | src/webauth/rate_limit.py:137-147 | the sweep removes exactly the keys aged out, when it is due |
| `RateLimit.SingleProcessRateLimitBackend.IsAllowed` | src/webauth/rate_limit.py:117-135 | one check computes the specification's verdict and store |
| `RateLimit.InProcessRefinesTheLog` | src/webauth/rate_limit.py:117-147 | on every lawful trace a check is allowed exactly when fewer than `limit` allowed events lie in the window |
| `RateLimit.VerdictExactly` | src/webauth/rate_limit.py:130-135 | a check is allowed exactly when fewer than `limit` earlier allowed checks of its key, counted in the trace, are less than one window old |
| `RateLimit.MismatchExactly` | src/webauth/rate_limit.py:121-129 | a key under another window than it was created with is refused exactly while the store remembers it |
| `RateLimit.SweepIsUnobservable` | src/webauth/rate_limit.py:137-147 | the sweep forgets no event that still counts |
| `RateLimit.AllowedEventsAreSpaced` | src/webauth/rate_limit.py:130-135 | with a fixed limit the i-th and (i + limit)-th allowed events are a window apart |
| `RateLimit.DeniedChecksDoNotCount` | src/webauth/rate_limit.py:132-133 | a denied check could as well not have been made |
| `RateLimit.StoreHoldsOnlyRecentKeys` | src/webauth/rate_limit.py:137-147 | after each check every stored key's newest stamp is later than now - window - 60 s |
| `RateLimit.RedisRateLimitBackend.Eval` | src/webauth/rate_limit.py:55-68 | the script's steps compute the specification's set, deadline and count, each told by the set as it was |
| `RateLimit.RedisRateLimitBackend.IsAllowed` | src/webauth/rate_limit.py:70-79 | the verdict from the script's count |
| `RateLimit.ExpiryIsUnobservable` | src/webauth/rate_limit.py:64-65 | whatever keys Redis drops after their deadline, no event in a window is lost |
| `RateLimit.LuaRefinesTheLog` | src/webauth/rate_limit.py:55-79 | on every lawful trace and whatever Redis drops, the script's verdict is the log's |
| `RateLimit.BackendsAgree` | src/webauth/rate_limit.py:55-147 | both backends and the log give one verdict on every check |
| `PendingLogin.SigningSucceedsExactly` | src/webauth/cookies.py:331-349 | signing succeeds exactly for three 43-character secrets, an instant in [0, 10^12) and a return path of at most 512 bytes |
| `PendingLogin.SignedText` | src/webauth/cookies.py:331-349 | the signed value letter by letter: version, state, nonce, verifier, instant, return path, and the prefixed signature of them |
| `PendingLogin.VerifyUndoesSign` | src/webauth/cookies.py:331-381 | every signed value fits 896 characters and gives the login back, exactly when its return path is absent or non-empty |
| `PendingLogin.OnlySignedValuesVerify` | src/webauth/cookies.py:352-369 | an accepted value is what signing some login produces exactly when its return path is canonically spelled; any other spells its return path otherwise than signing does |
| `PendingLogin.SessionSignatureIsNoPendingLogin` | src/webauth/cookies.py:154-159 | a session's signature passes as a pending login exactly when a fitting payload and the session are two different texts with one signature |
| `PendingLogin.PendingLoginSignatureIsNoSession` | src/webauth/cookies.py:181-191 | a pending login's signature passes as a session exactly on such a collision |
| `PendingLogin.KindsNeverMix` | src/webauth/cookies.py:154-159 | where no session text shares its signature with a pending-login text, neither cookie ever passes for the other |
| `PendingLogin.SomeMacKeepsKindsApart` | src/webauth/cookies.py:154-159 | and such signatures exist |
| `PendingLogin.SessionCookieReadsBack` | src/webauth/cookies.py:162-191 | an id fits its cookie exactly from 1 to 135 characters and reads back |
| `PendingLogin.OnlySignedSessionsVerify` | src/webauth/cookies.py:181-191 | a session cookie is accepted as an id exactly if it is that id before its own signature |
| `CookieJar.PendingLoginCookiesToEvict` | src/webauth/cookies.py:313-323 | the loop over the pairs computes the specification's names to evict |
| `CookieJar.EvictionTakesTheOldest` | src/webauth/cookies.py:313-328 | just enough names go and none below the cap, and none ranks newer than one kept |
| `CookieJar.PendingNameExactly` | src/webauth/cookies.py:113-135 | pending names are the prefix, `__Host-` on a secure host, and sixteen hexadecimal characters |
| `CookieJar.GenuineGoesLast` | src/webauth/cookies.py:313-328 | a name with one verifying cookie goes only when every name kept has one too, of a login begun no earlier |
| `CookieJar.TiesGoAsSeen` | src/webauth/cookies.py:313-323 | of names of one rank those the request names first go first |
| `CookieJar.StartLeavesAtMostFive` | src/webauth/cookies.py:281-293 | from any jar a browser can hold a start leaves at most five of the program's own pending cookies, every cookie held elsewhere as it was, and no other cookie touched |
| `CookieJar.CookiesAfterAStart` | src/webauth/cookies.py:276-293 | after a start any jar holds one pending cookie more than those that were not the program's own under an evicted name or the new one, so at most five exactly when those were at most four |
| `CookieJar.OwnJarsKeepBothPromises` | src/webauth/cookies.py:281-310 | where every pending cookie is the program's own, forged ones included, a start leaves at most five and its login is taken once |
| `CookieJar.NothingOwnNothingGoes` | src/webauth/cookies.py:276-293 | where none is, every start leaves exactly one more |
| `CookieJar.ScatteredCookiesExceedTheCap` | src/webauth/cookies.py:276-293 | on a plain host five cookies under other paths are not evicted, and a start leaves six |
| `CookieJar.CapHoldsExactlyOnSecureHosts` | src/webauth/cookies.py:101-125 | every start of every browser leaves at most five pending cookies if and only if the host's cookies are secure |
| `CookieJar.EveryRunStaysWithinFive` | src/webauth/cookies.py:281-310 | over every run of starts and callbacks from any browser's jar the program's own pending cookies stay at five or fewer, and what is held elsewhere stays as it was |
| `CookieJar.TakenOnce` | src/webauth/cookies.py:296-310 | the callback after a start gets exactly that login, or nothing where a cookie of its name is held elsewhere; the same callback again gets what is held elsewhere |
| `CookieJar.CopyIsTakenAgain` | src/webauth/cookies.py:296-310 | on a plain host a copied cookie under another path is taken by every callback |
| `CookieJar.LoginsAreTakenOnceExactlyOnSecureHosts` | src/webauth/cookies.py:101-125 | a second callback for a state gets nothing, in every browser, if and only if the host's cookies are secure |
| `CookieJar.TakenExactly` | src/webauth/cookies.py:296-310 | a login is taken exactly when one cookie, and no other, stands under the state's name and verifies |
| `CookieJar.TakingLeavesTheOthers` | src/webauth/cookies.py:296-310 | a callback leaves every login under another cookie name as it was, and under its own name what is held elsewhere |
| `CookieJar.StartLeavesOtherLogins` | src/webauth/cookies.py:281-293 | a start leaves the login of every other digest as it was unless it evicts its name |
| `CookieJar.TwoLoginsSideBySide` | src/webauth/cookies.py:122-125 | two logins begun one after the other can both be completed where there is room |
| `ForwardedChain.ForwardedEntries` | src/webauth/proxies.py:150-168 | the index-from-the-right scan ends and yields the reverse of joining, splitting and stripping |
| `Text.StripExactly` | src/webauth/proxies.py:165-165 | stripping takes all whitespace at both ends and nothing else |
| `ForwardedChain.ScanIsSplittingExactly` | src/webauth/proxies.py:150-168 | the scan's entries are those of joining, splitting, stripping and reversing if and only if there is a field |
| `ForwardedChain.ClientFromChain` | src/webauth/proxies.py:171-203 | at most sixteen hops are read, and the loop computes the specification |
| `ForwardedChain.GetClientIp` | src/webauth/proxies.py:206-224 | an untrusted peer is the client whatever the fields say; behind a trusted one the newest hop within sixteen that is no trusted proxy is, if it is an address, and otherwise the peer |
| `ForwardedChain.OneAddressOneIdentity` | src/webauth/proxies.py:109-128 | every spelling of an address has its one identity and standing; any other text is its own and trusted by nobody |
| `ForwardedChain.NewestUntrustedHopDecides` | src/webauth/proxies.py:187-196 | the newest hop that is no trusted proxy, within reach, is the client or nobody |
| `ForwardedChain.TrustedHopsNameNobody` | src/webauth/proxies.py:187-203 | trusted hops alone name nobody, and decide exactly when as many as are ever read |
| `ForwardedChain.PrefixNeverMatters` | src/webauth/proxies.py:175-186 | once the chain decides, no prepended field and no text ending in a comma changes the identity |
| `ForwardedChain.PrefixMattersExactly` | src/webauth/proxies.py:206-224 | and exactly then: an undecided chain is changed by one prepended outside address |
| `ForwardedChain.NewestEntry` | src/webauth/proxies.py:240-253 | the closest proxy's entry, or the empty text |
| `ForwardedChain.RequestIsHttps` | src/webauth/proxies.py:240-253 | the own connection is HTTPS, or a trusted peer says so in its newest entry, in any case |
| `ForwardedChain.NewestIsTheLastFieldsLast` | src/webauth/proxies.py:240-253 | it is what follows the last comma of the last field, whatever is prepended |
| `ReturnPath.AcceptedExactly` | src/webauth/_paths.py:42-66 | a candidate is accepted, as its encoding, exactly when it is clean and its encoding well formed |
| `ReturnPath.AcceptedTextsExactly` | src/webauth/_paths.py:42-66 | a printable text is accepted exactly if it is 1 to 512 characters, has no hash, begins with one slash, and its path lies at or below a plain root and is what a browser resolves it to |
| `ReturnPath.UnderExactly` | src/webauth/_paths.py:96-101 | an address is under a plain root exactly when its path is the root or lies below it |
| `ReturnPath.PathPartExactly` | src/webauth/_paths.py:64-64 | the path of an address is what stands before its first question mark, all of it without one |
| `ReturnPath.JudgingIsIdempotent` | src/webauth/_paths.py:42-66 | judging an accepted path again changes nothing; the well-formed paths are exactly the accepted ones |
| `ReturnPath.RemovalExactly` | src/webauth/_paths.py:91-93 | dot-segment removal keeps exactly the paths without a dot segment and shortens every other |
| `ReturnPath.DotFreeExactly` | src/webauth/_paths.py:91-93 | the refused paths are exactly those a browser's own resolution would change |
| `ReturnPath.AcceptedStaysInTheApp` | src/webauth/_paths.py:32-66 | an accepted path is 1 to 512 printable ASCII characters; what a browser resolves it to is what it reads, begins with one slash and lies at or below the root |
| `ReturnPath.EncodingReadsBack` | src/webauth/_paths.py:81-82 | only a lone surrogate fails to encode, and a path without a percent sign reads back from its escapes |
| `ReturnPath.AcceptedPathSurvivesTheLogin` | src/webauth/sign_in_routes.py:470-473 | the path accepted at the start fits the cookie, comes back from it and is accepted again unchanged |
| `CallbackQuery.StrictAgreesWithLenient` | src/webauth/oidc/_relying_party.py:655-670 | where the strict reader succeeds both readers see the same pairs |
| `CallbackQuery.QueryReadsBack` | src/webauth/oidc/_relying_party.py:602-670 | both readers give back, in order, exactly the names and values a query was spelled from; the strict one succeeds exactly if it decodes them all |
| `CallbackQuery.LenientWithoutEquals` | src/webauth/oidc/_relying_party.py:609-616 | a piece without an equals sign is a name with a blank value, an empty one nothing |
| `CallbackQuery.StrictWithoutEquals` | src/webauth/oidc/_relying_party.py:655-666 | and either makes the strict reader refuse the query |
| `CallbackQuery.ParametersExactly` | src/webauth/oidc/_relying_party.py:655-670 | a query has parameters exactly if it is UTF-8, decodes and repeats no name; they are its names with their values |
| `CallbackQuery.StateExactly` | src/webauth/oidc/_relying_party.py:602-617 | a state is named exactly by one pair called `state`, and no other, whose value is non-empty UTF-8 |
| `CallbackQuery.StrictStateIsTheLenientState` | src/webauth/oidc/_relying_party.py:602-621 | a strictly read query naming a non-empty state gives the lenient reader that same state |
| `CallbackQuery.LenientRefusalIsTheStrictOne` | src/webauth/oidc/_relying_party.py:617-621 | a state the lenient reader refuses is refused alike by `complete_login`, for every pending login |
| `CallbackQuery.TokenRequestExactly` | src/webauth/oidc/_relying_party.py:339-360 | exactly when a token request is made, and that its state is the one whose cookie was taken |
| `CallbackQuery.DenialIsBelievedOnlyForTheOwnState` | src/webauth/oidc/_relying_party.py:339-353 | the issuer's refusal is believed only for the own state, in time and from the own issuer |
| `CallbackQuery.IssuersCodeIsExchanged` | src/webauth/oidc/_relying_party.py:339-360 | the issuer's answer with the login's `state`, its `iss` and a `code` of 1 to 2048 characters within 600 s brings about the request with that code and the login's verifier |
| `CallbackQuery.IssuersAnswerNamesItsState` | src/webauth/oidc/_relying_party.py:602-617 | and names the state whose cookie is taken |
| `CallbackQuery.IssuersDenialIsShown` | src/webauth/oidc/_relying_party.py:349-355 | with an `error` instead it is a denial, shown with the code where that is 1 to 64 safe characters |
| `CallbackQuery.TokenIsRequestedForTheOwnState` | src/webauth/sign_in_routes.py:438-461 | a callback asks for a token only with the verifier of the login whose state the query names; the same query again ends as from what the browser holds elsewhere |
| `CallbackQuery.TokenIsRequestedOnce` | src/webauth/sign_in_routes.py:438-461 | the same query never asks twice where no pending cookie is held elsewhere, hence never on a secure host |
| `CallbackQuery.CopyRequestsAToken` | src/webauth/sign_in_routes.py:438-461 | on a plain host a copy under another path asks for a token on every callback in time |
| `CallbackQuery.MalformedRestStillTakesTheCookie` | src/webauth/sign_in_routes.py:438-461 | a malformed rest beside a usable state still takes its cookie and ends in a refusal |
| `CallbackQuery.BegunLoginCompletes` | src/webauth/sign_in_routes.py:438-461 | a login just begun completes on the callback that brings its state and a code in time exactly when no cookie of its name is held elsewhere, and is refused otherwise |
| `ResponseGuards.WrapperSendsAtMostOneStart` | src/webauth/sign_in_routes.py:526-550 | around an app that sends at most one start, a wrapper with its own fallback answer lets out at most one |
| `ResponseGuards.StackSendsAtMostOneStart` | src/webauth/middleware/security_headers.py:65-90 | for every behaviour of the route and every failing send, at most one start reaches the server |
| `ResponseGuards.ServerExceptionFollowsOneStart` | src/webauth/middleware/security_headers.py:79-90 | when the stack ends in an exception, exactly one start was handed to the server |
| `ResponseGuards.OnlyTheBodyLimitEndsAFailure` | src/webauth/middleware/body_size.py:125-130 | the stack returns only if the route returned or the body was over the limit, and raises the inner exception unaltered |
| `ResponseGuards.EveryMessageIsDelivered` | src/webauth/sign_in_routes.py:526-550 | every message that reaches the server is the route's own, status and content unaltered, or one of the three fallback answers |
| `ResponseGuards.KnownBeforehandIsAnswered` | src/webauth/sign_in_routes.py:526-529 | a failure as outcome, a declared length over the limit and a missing configuration are answered before any app runs |
| `ResponseGuards.RouteFailureIsAnswered` | src/webauth/sign_in_routes.py:530-550 | an answer that raises before it starts is sent as the failure answer with the cookies, and the failure raised after it |
| `ResponseGuards.OversizeIsAnswered` | src/webauth/middleware/body_size.py:125-130 | an unstarted answer to a body over the limit is the 413, which ends the request; every other failure goes on |
| `ResponseGuards.ServerErrorIsAnswered` | src/webauth/middleware/security_headers.py:79-90 | an unstarted exception is answered with the 500 under the policy and raised after it, even where the 500 could not be sent |
| `ResponseGuards.AppIsHandedNoMoreThanTheLimit` | src/webauth/middleware/body_size.py:100-110 | the app is never handed more than the limit, however often it reads on |
| `ResponseGuards.PolicyExactly` | src/webauth/middleware/security_headers.py:92-107 | header by header what the policy leaves: its own once, the marker never, every other as it was |
| `ResponseGuards.EveryStartCarriesThePolicy` | src/webauth/middleware/security_headers.py:69-77 | every start that reaches the server carries the policy, the 413 and the 500 included |
| `ResponseGuards.RouteCookiesReachTheServer` | src/webauth/sign_in_routes.py:515-550 | every start of a route answer, for its outcome or its failure, reaches the server with the clearing cookies |
| `ResponseGuards.BodySizeCall.GuardedReceive` | src/webauth/middleware/body_size.py:102-110 | the counter grows by the bytes of the message, which is handed on exactly unless they pass the limit, in step with the wrapper |
| `ResponseGuards.BodySizeCall.SendStartWhole` | src/webauth/middleware/body_size.py:113-124 | the message goes on as it is, a start remembered, in step with the wrapper whatever the send gives |
| `ResponseGuards.SecurityHeadersCall.SendWithPolicy` | src/webauth/middleware/security_headers.py:69-75 | the message goes on with its status and content, a start's headers name by name as the policy leaves them, in step with the wrapper |

## Left out

- Network and TLS (`https_client.py`, `oidc_transport.py`): a fetch or token request is an arbitrary answer or failure; a fetch raising anything but its own error is outside its contract.
- Cryptography and PyJWT: signatures, RSA keys and HMAC are arbitrary functions; that HMAC-SHA256 has no findable collision across the two prefixes is its own property and is not modelled. Token claims, time claims and audiences of JWTs are not modelled.
- JSON text, and the decoding of percent-escapes in queries: documents are parsed values, and a strict and a lenient decoder are arbitrary functions that agree where the strict one succeeds.
- Floating-point and time-zone detail: clocks are reals or integers, instants are UTC seconds; calendar overflow is not modelled.
- IP address syntax and the /64 budget address: reading, unmapping and printing an address and the trusted networks are arbitrary functions.
- The lazy cost of the forwarded scan and its log lines: entries are a sequence, of which at most sixteen are read.
- FastAPI and Starlette wiring, exception handlers and middleware between the three response guards, HTML and CSP text, CSRF checks, path policies and bearer-gate dispatch: mostly single-branch decisions.
- Host transactions that fail at exit, or stores that raise or answer no `bool`: the library promises nothing there; each store call is atomic.
- Overlapping calls of the object `JwtVerifier`: its methods are sequential and the refresh lock is not a field; interleaving is in `KeySetCache`, on values.
- `cookie_secure` is read before the app runs, so it is a constant of the modelled call of the security-headers middleware.
- The rules by which a browser sends cookies: every cookie of a jar is taken to be sent to every route, in the jar's order, and a replaced cookie moves to the end; that browsers keep `__Host-` names to the host and its root is taken from `cookies.py:101-110`. Cookies expire at no time in the model.
- A signed return path whose base64 length is impossible makes verification raise: `Rank` takes such a value as one that does not verify, where the program would answer with an error; only the host's own key could sign one. A return path that is not UTF-8 is carried as bytes.
- Response messages and headers are values: `SendWithPolicy` returns the rewritten message where the program edits it in place, and header names are taken to be in lower case. The 413, 500 and refusal answers are a start and one body.
- The deadline around sending a start: a start that times out is one of the failures a send may give.
- Redis rounds nothing in the model and removes a key at any time after its deadline; the identifiers of events are taken to be distinct.
- The shape of a single configured group path, Unicode categories included: only the relation between the two groups is modelled.
- The address an unauthenticated request asked for (`requested_address`): the return-path judge takes an arbitrary candidate.
- `max_sessions`: taken to be positive, as the installation of the routes requires.
- `_admit_resource_holder`, service callers and workload tokens: single decisions without state.
