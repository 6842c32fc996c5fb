# Nevis website: authentication routes, visit counter, client helpers and database retry

A Dafny model of the core of the Nevis personal website, with proofs about it.

- **Authentication routes** (`AuthRoutes`, auth_routes.dfy). The nine handlers under `/api/auth` are methods of the class `AuthServer`:
  - register, login, refresh, logout, forgot-password, reset-password;
  - profile read, profile update, change-password.
  Each handler works on an in-memory user store (`users`, where an account's id is its position) and on the set of revoked tokens (`revoked`). Collaborators outside the model are fixed function fields of the server, treated as oracles:
  - the password check of the user model, answering `{valid, locked}`;
  - token issuing and refresh-token verification;
  - express-validator's `isEmail().normalizeEmail()` chain and `isURL()`.
  The user model's validators for `username` and `email` (Nevis Website/html/User.js, lines 22-42) are modelled: `User.create` and an update with `runValidators` refuse a value they reject, and the error handler turns that into 400 VALIDATION_ERROR (Nevis Website/html/errorHandler.js, lines 28-33). Because `save()` runs those validators again on a loaded account, the store invariant `Valid()` includes them: every stored username is trimmed and passes the username validators, and every stored address passes the `email` match. Every route keeps that invariant, so the `save()` calls of login, forgot-password, reset-password and change-password cannot fail validation. One account is written back through `Save`.
  The clock, the client address, the random reset token and `RESET_TOKEN_EXPIRY_MS` are parameters. The `callerToken` of change-password stands for `req.token`. The `requireAuth` middleware in Nevis Website/html/middleware_auth.js never sets it, so with that middleware nothing is revoked there. That middleware does not consult the revoked set either. The scenario methods `RegisterNewAddress`, `RegisterKnownAddress`, `RegisterTwice` and `ResetLinkIsSingleUse` use only the route contracts. They show that an address already registered is refused, that a duplicate registration is refused, and that a reset link works once.
- **Contact routes** (`Contact`, contact.dfy). This covers:
  - the `/send` validation rule;
  - the page-name sanitiser;
  - the class `VisitCounter`, which is the `visitCounts` dictionary that `/visit` updates in place, together with the `/stats` total. It is keyed by page name alone, which is what the code intends.
- **The visit counter as a plain object** (`JsVisits`, js_visits.dfy). `visitCounts` is a plain JavaScript object, and lookups the object does not own fall through to `Object.prototype`. This module models that, and shows where it parts from `VisitCounter` (see "## Findings").
- **Client helpers** (`Client`, client.dfy). This covers:
  - `calcStrength` (as a method with a step-by-step counter) and the strength-label table;
  - the e-mail and password checks;
  - the translation lookup;
  - the localStorage fallback registry used by the register and login forms (class `OfflineRegistry`);
  - `NVApi.call`'s retry-once-after-refresh rule, over abstract responses. A `fetch` that rejects, or a refresh answered OK with a body that is not JSON, makes the call reject (`Thrown`). The register and login forms see that as `NetworkError` and fall back to the stored users;
  - the page name `trackVisit` sends.
- **Database connection** (`Database`, database.dfy). `connectDB`'s bounded retry loop with exponential back-off is a method driven by a sequence of connection outcomes. The waits are returned rather than slept.
- **Shared text functions** (`Text`, text.dfy). This covers:
  - the JavaScript whitespace set, `trim`, ASCII `toLowerCase`;
  - `split`/`join`, `indexOf`, and replacing the first match;
  - the password rule, shared by the server's `passwordRule` and the client's `isPass`;
  - the e-mail pattern `^[^\s@]+@[^\s@]+\.[^\s@]+$`, shared by the client's `isEmail` and the user model's `email` match.
  `Wrappers` (wrappers.dfy) holds `Option`.
- **Wire** (wire.dfy). How the client's `Authorization` header connects to the token the logout route revokes.

## Model

| member | source | states |
|---|---|---|
| AuthRoutes.FindFirst | html/mnt/user-data/outputs/routes/auth.js:61 | `findOne`: finds the first account matching the filter; `None` exactly when no account matches |
| AuthRoutes.FindByEmail | html/mnt/user-data/outputs/routes/auth.js:61 | an account with that address is found; none is found exactly when no account has it |
| AuthRoutes.FindByResetToken | html/mnt/user-data/outputs/routes/auth.js:227-230 | the account found has this reset token and an expiry strictly after `now`; `None` exactly when no such account exists |
| AuthRoutes.Escape | html/mnt/user-data/outputs/routes/auth.js:51 | the escaped username contains none of `" ' < > / \` and backquote; text without special characters or `&` is unchanged |
| AuthRoutes.EscapeCharEntity | html/mnt/user-data/outputs/routes/auth.js:51 | each of `& " ' < > / \` and backquote becomes an entity: at least 4 characters, starting with `&` and ending with `;`. Every other character stays as it is |
| AuthRoutes.EscapeAppend | html/mnt/user-data/outputs/routes/auth.js:51 | `escape()` works character by character: the escape of `a + b` is the escape of `a` followed by the escape of `b` |
| AuthRoutes.EscapeOne | html/mnt/user-data/outputs/routes/auth.js:51 | the escape of one character is that character's entry in the entity table |
| AuthRoutes.EscapeFirst | html/mnt/user-data/outputs/routes/auth.js:51 | an escape starts with the first character of the first character's escape |
| AuthRoutes.EscapeLast | html/mnt/user-data/outputs/routes/auth.js:51 | an escape ends with the last character of the last character's escape |
| AuthRoutes.EscapeKeepsTrimmed | html/mnt/user-data/outputs/routes/auth.js:51 | escaping a trimmed value leaves it trimmed, since no entity starts or ends with whitespace. So the schema's `trim` setter does not change an escaped username |
| AuthRoutes.EscapeShowsEntity | html/mnt/user-data/outputs/routes/auth.js:51 | wherever the input holds a special character or `&`, the escape holds an `&` |
| AuthRoutes.SchemaRefusesEntities | html/mnt/user-data/outputs/routes/auth.js:51-65 | an escaped username that the user model's schema (Nevis Website/html/User.js, lines 22-31) accepts at `User.create` is one escaping left unchanged. So no stored username holds an entity |
| AuthRoutes.SpecialNameRefused | html/mnt/user-data/outputs/routes/auth.js:51-65 | a username whose trimmed form holds a special character or `&` is refused by the schema once escaped |
| AuthRoutes.ApostropheNameRefused | html/mnt/user-data/outputs/routes/auth.js:51-65 | "O'Brien" passes the route's 2–30 rule, but its escape `O&#x27;Brien` does not match the schema's `^[a-zA-Z0-9_\- ]+$` |
| AuthRoutes.GeneratedTokenAccepted | html/mnt/user-data/outputs/routes/auth.js:185-212 | every 64-hex-digit token from `randomBytes(32).toString("hex")` passes the reset-token rule (non-empty, hexadecimal, length 64) |
| AuthRoutes.ResetExpiryMs | html/mnt/user-data/outputs/routes/auth.js:186 | `parseInt(env) \|\| 15*60*1000`: the value is never 0; an unset variable gives 900000; a non-zero parsed value is used as is; every value other than the default is the parsed one |
| AuthRoutes.ParseInt | html/mnt/user-data/outputs/routes/auth.js:186 | `parseInt(s, 10)` of an unset variable is NaN |
| AuthRoutes.ParseIntNaN | html/mnt/user-data/outputs/routes/auth.js:186 | `parseInt` answers NaN when no digit follows the leading whitespace and an optional sign (for example "", "  ", "-", "+x", "abc"), and the expiry then falls back to 900000 ms |
| AuthRoutes.ParseIntNoDigits | html/mnt/user-data/outputs/routes/auth.js:186 | a value with no digit at all, such as "abc", reads as NaN, so the reset expiry is the default 15 minutes |
| AuthRoutes.ParseIntOf | html/mnt/user-data/outputs/routes/auth.js:186 | `parseInt` of leading whitespace, an optional `+` or `-`, digits, then a non-digit or the end, is the value of the digits, negated after `-` |
| AuthRoutes.ParseIntUnsigned | html/mnt/user-data/outputs/routes/auth.js:186 | whitespace, then digits followed by a non-digit: the value of the digits |
| AuthRoutes.ParseIntSigned | html/mnt/user-data/outputs/routes/auth.js:186 | whitespace, a sign, then digits followed by a non-digit: the value of the digits, negated after `-` |
| AuthRoutes.ParseSkipsSpace | html/mnt/user-data/outputs/routes/auth.js:186 | `parseInt` skips leading whitespace: what follows it decides the value |
| AuthRoutes.DigitPrefix | html/mnt/user-data/outputs/routes/auth.js:186 | the digits `parseInt` reads: the longest prefix made of decimal digits only |
| AuthRoutes.DigitPrefixOf | html/mnt/user-data/outputs/routes/auth.js:186 | the digits read from digits followed by a non-digit are exactly those digits |
| AuthRoutes.LoginGate | html/mnt/user-data/outputs/routes/auth.js:97-104 | the login order. `locked` always gives ACCOUNT_LOCKED, before any credential verdict. A missing account or a wrong password, when not locked, gives INVALID_CREDENTIALS. An existing, unlocked account with a valid password that is inactive gives ACCOUNT_INACTIVE, and ACCOUNT_INACTIVE comes only after a valid password. The login passes iff the account exists, the password is valid, it is not locked and it is active |
| AuthRoutes.RecordLogin | html/mnt/user-data/outputs/routes/auth.js:107-109 | `loginCount` becomes the old value plus 1 (a missing value counts as 0); `lastLogin` is now and `lastLoginIp` the address; all other fields are unchanged |
| AuthRoutes.HeaderToken | html/mnt/user-data/outputs/routes/auth.js:156 | the token read from the header is non-empty and contains no space |
| AuthRoutes.BearerHeaderToken | html/mnt/user-data/outputs/routes/auth.js:156 | for a header `Bearer <token>` (section 2.1 of RFC 6750), `split(" ")[1]` is exactly that token |
| AuthRoutes.BuildUpdates | html/mnt/user-data/outputs/routes/auth.js:275-277 | the update holds exactly the whitelisted fields (username, bio, avatar) present in the body, each with its body value |
| AuthRoutes.ApplyUpdates | html/mnt/user-data/outputs/routes/auth.js:279-283 | `$set` changes username, bio and avatar only, each only when it is in the update; every other field is unchanged |
| AuthRoutes.SanitizeProfile | html/mnt/user-data/outputs/routes/auth.js:266-272 | the sanitisers keep the body's key set and leave every non-whitelisted field untouched |
| AuthRoutes.StoredNameIsSchemaOk | html/mnt/user-data/outputs/routes/auth.js:51-65 | a username as the store holds it (2 to 30 characters of `[a-zA-Z0-9_\- ]`, no whitespace at either end) is exactly a value that the `trim` setter leaves unchanged and the user model (Nevis Website/html/User.js, lines 22-31) accepts |
| AuthRoutes.EscapedNameStored | html/mnt/user-data/outputs/routes/auth.js:51-65 | a trimmed and escaped username that the validators accept is stored as it is, so `User.create` keeps the invariant |
| AuthRoutes.SanitizedNameStored | html/mnt/user-data/outputs/routes/auth.js:266-283 | a sanitised username that `runValidators` accepts is stored as it is, so the profile update keeps the invariant |
| AuthRoutes.AuthServer.Save | html/mnt/user-data/outputs/routes/auth.js:110 | `user.save()` of one account whose id and address stay and whose username stays or was validated: the store becomes the old one with that account replaced, and the invariant holds |
| AuthRoutes.AuthServer.StoreResetToken | html/mnt/user-data/outputs/routes/auth.js:186-189 | the account gets the token and the expiry `now + ResetExpiryMs(env)`; every other account and field is unchanged |
| AuthRoutes.AuthServer.FindById | html/mnt/user-data/outputs/routes/auth.js:139 | `findById`: found exactly for an existing id, and the record returned carries that id |
| AuthRoutes.AuthServer.LoginAccount | html/mnt/user-data/outputs/routes/auth.js:94 | the account found carries the normalised login address, and no account is found exactly when no stored account has that address |
| AuthRoutes.AuthServer.LoginVerdict | html/mnt/user-data/outputs/routes/auth.js:97-99 | a missing account is treated as `{valid: false, locked: false}` |
| AuthRoutes.AuthServer.Register | html/mnt/user-data/outputs/routes/auth.js:47-80 | input failing the route's rules gives VALIDATION_ERROR. A registered normalised address gives EMAIL_TAKEN and creates nothing. A trimmed and escaped username or an address that the user model's validators refuse gives VALIDATION_ERROR and creates nothing. Otherwise exactly one account is appended, with that username, the normalised address and the schema defaults. The store invariant (ids are positions, addresses unique, stored values accepted by the validators) is kept |
| AuthRoutes.AuthServer.Login | html/mnt/user-data/outputs/routes/auth.js:85-124 | a refusal is exactly the error `LoginGate` decides, and then nothing is written. Otherwise only the account's login record changes, and the tokens are issued from the updated record |
| AuthRoutes.AuthServer.Refresh | html/mnt/user-data/outputs/routes/auth.js:130-147 | NO_REFRESH_TOKEN, then REFRESH_INVALID, then USER_INACTIVE, in that order. A new pair is issued only when all three checks pass. Nothing is written |
| AuthRoutes.AuthServer.Logout | html/mnt/user-data/outputs/routes/auth.js:152-164 | always succeeds; revokes the header's token when there is one, and nothing else |
| AuthRoutes.AuthServer.ForgotPassword | html/mnt/user-data/outputs/routes/auth.js:169-202 | the reply depends only on whether the address passes validation, not on whether it is registered. An unknown address changes nothing. A registered one gets the token, with expiry `now + ResetExpiryMs(env)`, and nothing else changes |
| AuthRoutes.AuthServer.ResetPassword | html/mnt/user-data/outputs/routes/auth.js:207-243 | a token or password failing the rules is refused. Only a matching, unexpired token is accepted. Success replaces the password and clears both reset fields, so the token cannot be used again |
| AuthRoutes.AuthServer.GetProfile | html/mnt/user-data/outputs/routes/auth.js:248-257 | the profile for an existing caller, NOT_FOUND otherwise |
| AuthRoutes.AuthServer.PatchProfile | html/mnt/user-data/outputs/routes/auth.js:262-290 | a field failing its optional rule is refused. A sanitised username that the user model's validators refuse (`runValidators`) gives VALIDATION_ERROR. An unknown caller gets NOT_FOUND. Otherwise only the caller's username, bio and avatar change, each only when sent, to its sanitised value; other accounts are untouched |
| AuthRoutes.AuthServer.ChangePassword | html/mnt/user-data/outputs/routes/auth.js:295-335 | the new password must meet the rule and differ from the current one. A wrong current password gives WRONG_PASSWORD and changes nothing. Success replaces only the password and revokes the caller's token when one is given |
| Wire.BearerRoundTrip | html/script.js:253 | the header the client sends for a stored token yields exactly that token at the logout route |
| Contact.KeepPageChars | html/contact.js:81 | `replace(/[^a-z0-9_-]/g, '')`: the result holds allowed characters only and is no longer than the input; input made of allowed characters is unchanged, input with none gives the empty key |
| Contact.KeepPageCharsAppend | html/contact.js:81 | the filter works piece by piece: filtering `a + b` gives the filtered `a` followed by the filtered `b` |
| Contact.KeepPageCharsOne | html/contact.js:81 | one character is kept exactly when it is in `[a-z0-9_-]`, and removed otherwise |
| Contact.SanitizePage | html/contact.js:81 | the page key holds only characters of `[a-z0-9_-]` and is no longer than the input; a name already made of those characters is its own key |
| Contact.SanitizeAppend | html/contact.js:81 | sanitising `a + b` gives the sanitised `a` followed by the sanitised `b` |
| Contact.SanitizeOne | html/contact.js:81 | one character becomes its lower-case form when that is in `[a-z0-9_-]`, and is removed otherwise. Together with `SanitizeAppend` this fixes the key of every name: "ABOUT" gives "about" and "a!b" gives "ab" |
| Contact.SanitizeIdempotent | html/contact.js:81 | sanitising a key again leaves it unchanged |
| Contact.PageKey | html/contact.js:76-81 | the key of a trimmed page name consists of allowed characters only |
| Contact.PageKeyOfKey | html/contact.js:76-81 | a page field already made of key characters is counted under itself |
| Contact.RecordVisit | html/contact.js:82-95 | a visit keeps the key list duplicate-free and in step with the map, and raises the `/stats` sum by exactly 1 |
| Contact.CountBelowSum | html/contact.js:95 | every page's count is at most the total |
| Contact.VisitCounter.Bump | html/contact.js:82 | the count rises by 1 (from 0 when absent), every other page is unchanged, and the total rises by 1 |
| Contact.VisitCounter.Visit | html/contact.js:72-87 | a page field that is blank or over 60 characters after trimming is rejected without change. Otherwise the sanitised page's count rises by 1, the reply carries the page and its new count, other pages are unchanged, and the total rises by 1 |
| Contact.VisitCounter.Stats | html/contact.js:94-103 | `totalVisits` is the sum of all page counts, `pages` is the counts themselves, and no page exceeds the total |
| Contact.VisitCounter.constructor | html/contact.js:21 | the counter starts empty with total 0 |
| Contact.Send | html/contact.js:36-65 | accepted exactly when the e-mail is valid, the trimmed name has 1 to 80 characters and the trimmed message 10 to 2000; blank names and short messages are refused |
| Contact.SendIgnoresPadding | html/contact.js:40-45 | surrounding whitespace does not change the verdict |
| JsVisits.Get | html/contact.js:82 | `visitCounts[k]` is the object's own value when it has one. Otherwise it is `Object` for "constructor", `Object.prototype` for "__proto__", and `undefined` for every other sanitised key (made of `[a-z0-9_-]`, as every key `/visit` uses is) |
| JsVisits.Plus | html/contact.js:82 | JavaScript's `+`: numbers add, and once either side is a string or an object both sides are turned into text and concatenated |
| JsVisits.Bump | html/contact.js:82 | `visitCounts[page] = (visitCounts[page] \|\| 0) + 1` stores the new value under the key, except that an assignment to "__proto__" leaves the object unchanged |
| JsVisits.BumpAgrees | html/contact.js:82 | for every sanitised key other than "constructor" and "__proto__", the object counts exactly as `VisitCounter` does: the key's count rises by 1 and the reply is that count |
| JsVisits.TotalAgrees | html/contact.js:94 | while every value is a number, the `reduce` over the values is the sum `VisitCounter.Total` states |
| JsVisits.ConstructorVisitIsText | html/contact.js:81-86 | the page "constructor" keeps its name as key, and its first visit stores and answers the string `function Object() { [native code] }1` |
| JsVisits.ConstructorBreaksTotal | html/contact.js:94 | after visits to "home" and "constructor", the `/stats` total is the string `1function Object() { [native code] }1`, not 2 |
| JsVisits.ProtoVisitIgnored | html/contact.js:81-86 | the page "__proto__" keeps its name as key; its visit stores nothing and answers `Object.prototype` (sent as `{}`) |
| Client.ScoreByCriterion | html/script.js:771-777 | the score is one point each for length ≥ 8, length ≥ 12, an upper-case letter, a lower-case letter, a digit and a non-alphanumeric character |
| Client.CalcStrength | html/script.js:771-777 | the step-by-step counter computes exactly that score, and it is at most 6 |
| Client.StrongPasswordScore | html/script.js:773-789 | every password `isPass` accepts scores at least 4 |
| Client.FullScore | html/script.js:771-777 | the score is 6 exactly when all six criteria hold |
| Client.StrengthBand | html/script.js:780-782 | the score is clamped at 6. 0 gives an empty label, 1–2 weak (25%), 3 fair (50%), 4 good (75%), 5–6 strong (100%) |
| Client.BandMonotone | html/script.js:780-782 | a higher score never shows a narrower bar |
| Client.StrongPasswordBand | html/script.js:780-789 | a password `isPass` accepts shows at least "good" (75%) |
| Text.IsEmailIsPattern | html/script.js:788 | the e-mail check holds exactly when the address matches `^[^\s@]+@[^\s@]+\.[^\s@]+$`, the pattern of `isEmail` and of the user model's `email` match |
| Client.CurrentLang | html/script.js:299 | the stored language when it is non-empty; "en" when nothing or the empty string is stored |
| Client.Tr | html/script.js:301 | the current language's entry if non-empty, else the English one if non-empty, else the key |
| Client.StrengthLabel | html/script.js:782-784 | the label is empty exactly for score 0 |
| Client.FindByEmail | html/script.js:813 | `find` by e-mail returns the first stored user with that address, or `None` exactly when there is none |
| Client.FindCredentials | html/script.js:842 | a user is found exactly when some stored user has both this e-mail and this password, and it is the first such user |
| Client.FormEmail | html/script.js:795 | the form's e-mail after `trim().toLowerCase()` has no upper-case letter |
| Client.OfflineRegistry.SubmitRegister | html/script.js:793-818 | an invalid form changes nothing. Offline, a stored address gives "taken" and changes nothing; otherwise exactly one user is appended and the existing entries stay. Online results are also covered |
| Client.OfflineRegistry.SubmitLogin | html/script.js:822-850 | offline, signed in exactly when a stored user matches both e-mail and password, under the name of the first such user. Online, the remembered flag and display name are taken from the answer |
| Client.AuthHeader | html/script.js:252-253 | a header is attached exactly when a non-empty token is stored, and it is `Bearer <token>` |
| Client.Call | html/script.js:250-268 | the request is re-issued at most once: exactly after a 401 and a refresh answered OK with a JSON body holding a token. That token is stored and carried in the second request. The call rejects exactly when a `fetch` rejects or when the OK refresh's body is not JSON. Otherwise it resolves with the last response's `ok` and body |
| Client.PageName | html/script.js:660 | the page name is non-empty and contains no `/` |
| Client.PageNameIsLastSegment | html/script.js:660 | the general rule: the name is the text after the last `/` (all of the path when there is none) with its first ".html" removed, and "home" when that is empty |
| Client.PageNameOf | html/script.js:660 | the name is read off the last piece of the split path |
| Client.PageNameInDirectory | html/script.js:660 | `<dir>/<name>.html` reports `<name>` for any directory, for example "/blog/post.html" gives "post", when the name has no `/` and no `.` |
| Client.LastSegment | html/script.js:660 | the last piece of `<dir>/<file>` is the file when the file has no `/` |
| Client.HtmlRemoved | html/script.js:660 | removing the first ".html" of `<name>.html` gives the name when the name has no `.` |
| Client.RootIsHome | html/script.js:660 | the site root reports `home` |
| Client.TrackedPageKey | html/script.js:658-664 | the name the client sends for `/<name>.html` is the key `/visit` counts it under, for names made of allowed characters |
| Database.Backoff | html/database.js:46-47 | the wait after failed attempt k is `delay · 2^(k-1)` |
| Database.ConnectDB | html/database.js:26-51 | a missing `MONGO_URI` exits before any attempt. At most `retries` attempts are made, and the first success returns at once. Every earlier attempt failed. The final failure exits with no wait after it. The waits are the back-off schedule for the failed attempts |
| Database.DefaultSchedule | html/database.js:26-47 | with the defaults (5 attempts, 3000 ms) the waits are 3 s, 6 s, 12 s, 24 s |
| Database.BackoffTotal | html/database.js:46-49 | n waits sum to `delay · (2^n − 1)` |
| Text.Trim | html/contact.js:40 | express-validator's `trim()`: neither end is whitespace, the result is empty exactly for all-blank input, and input without blanks is unchanged |
| Text.TrimIsStretch | html/contact.js:40 | the trimmed value is a stretch `s[i..j]` of the input with only whitespace before `i` and after `j` |
| Text.TrimTwice | html/contact.js:40 | trimming an already trimmed value changes nothing |
| Text.TrimKeeps | html/contact.js:40 | a value with no whitespace at either end is its own trim, so trimming twice is trimming once |
| Text.TrimPadding | html/contact.js:40-44 | padding with whitespace on both sides does not change what `trim()` gives |
| Text.JoinSplit | html/script.js:660 | joining the pieces of `split` gives back the string |
| Text.SplitJoin | html/mnt/user-data/outputs/routes/auth.js:156 | splitting a join of pieces that do not contain the separator gives back the pieces |
| Text.SplitLast | html/script.js:660 | the last piece of `split` (what `pop()` takes) is a suffix of the string. It is preceded by the separator when shorter than the string, and it is the whole string when there is only one piece |
| Text.LastPiece | html/script.js:660 | the last piece starts right after the last separator, or at the start when there is none, and holds no separator |
| Text.IndexOf | html/script.js:810 | `includes`/`indexOf` finds the first occurrence, and `None` exactly when there is none |
| Text.ReplaceFirstAbsent | html/script.js:660 | `replace` with a string pattern leaves a string without an occurrence unchanged |
| Text.ReplaceFirstAt | html/script.js:660 | `replace` with a string pattern replaces the first occurrence, and only it |
| Text.ToLower | html/contact.js:81 | `toLowerCase` keeps the length and leaves no ASCII capital |

## Left out

- Password hashing, the lockout counters, JWT signing and verification, and the revocation registry's own code are not part of this model. The password check, token issuing and refresh-token verification are oracles: pure functions of the account and the input. So the counter updates of a failed attempt, within the account record, are not modelled.
- AuthRoutes.AuthServer.LoginVerdict: the comment at html/mnt/user-data/outputs/routes/auth.js:96 says bcrypt always runs to prevent timing attacks, but lines 97-99 skip the password check when no account has the address. The model follows the code. Timing is not modelled, so the difference in response time this leaves is not captured.
- AuthRoutes.AuthServer.ResetPassword: it does not clear the lockout state, because this route file writes only the password and the two reset fields. The sibling route file Nevis Website/html/auth.js does clear `failedLoginCount` and `lockUntil` on a reset (lines 232-234); that file is not part of this model.
- express-validator's `isEmail`, `normalizeEmail` and `isURL` are oracles; only their verdict and the normalised address are used.
- AuthRoutes.AuthServer.Register: the user model's `lowercase` and `trim` setters on `email` are taken to change nothing, because they act on an address `normalizeEmail` has already lower-cased and `isEmail` has checked to hold no whitespace. The `unique` index on `email` is covered by the EMAIL_TAKEN check, since requests do not interleave. The schema's `password` rule (`minlength: 8`) is implied by the route's password rule. The schema's `required` checks are implied by the route's `notEmpty`/length checks.
- AuthRoutes.AuthServer.PatchProfile: of the validators `runValidators` applies to the `$set`, only the username's can fail. This holds under the code-point count of the lengths line below: the route already limits the trimmed bio to 200 characters and the avatar has none. The schema's `maxlength: 200` on `bio` counts UTF-16 units, so a bio of 101 to 200 characters outside the Basic Multilingual Plane passes `isLength` but fails `runValidators`; the model does not capture that refusal.
- `toPublic()` and the response bodies: a reply carries the account's id, not the public view of the account.
- `Math.pow(2, attempt - 1)` is exact integer arithmetic here; no floating-point rounding.
- Lengths count Unicode code points. JavaScript's `length`, used by the client's checks and by the user model's `minlength`/`maxlength`, counts UTF-16 code units, so a character outside the Basic Multilingual Plane counts twice there. express-validator's `isLength` counts code points but skips the variation selectors U+FE0E and U+FE0F, which the model counts. `toLowerCase` is modelled for ASCII letters only.
- AuthRoutes.ParseInt: digit strings longer than a double's precision are read exactly here, while JavaScript rounds them.
- Contact.VisitCounter.Visit: models the counter keyed by page name alone, as intended. The plain object of the code differs for the pages "constructor" and "__proto__"; `JsVisits` models that, see "## Findings".
- Contact.VisitCounter.Bump: as for `Visit`, the two inherited names are handled in `JsVisits`.
- Contact.VisitCounter.Stats: as for `Visit`, the string total after a "constructor" visit is shown in `JsVisits`.
- Express plumbing is left out: routing, `asyncHandler`, rate limiters, cookie options, request ids and logging. Welcome and reset e-mails are fire-and-forget I/O, also left out.
- Each request runs to completion; interleaving between requests is not modelled.
- The client's DOM, toasts, timers and storage writes are left out. The `localStorage.nv_users` array is the `users` field; the "remember me" choice is a returned flag. The JSON body of a response is an optional map.
- `process.exit`, `setTimeout` and `mongoose.connect` become the returned outcome, the returned waits, and the `connect` oracle. `disconnectDB` is a single foreign call and is not modelled.
- The `/stats` uptime field reads the process clock and is not modelled.

## Findings

| source | as written | input that shows it | evidently intended | confidence | as-written member | corrected member |
|---|---|---|---|---|---|---|
| html/contact.js:21 | `visitCounts` is a plain object `{}`, so a page key can name a member inherited from `Object.prototype`. `(visitCounts[page] \|\| 0) + 1` then starts from that member (line 82), and `Object.values(...).reduce((a, b) => a + b, 0)` (line 94) concatenates once a value is a string | a visit of page "constructor" answers `visits: "function Object() { [native code] }1"`. After "home" and "constructor", `/stats` answers `totalVisits: "1function Object() { [native code] }1"`. A visit of "__proto__" stores nothing and answers `visits: {}` | a counter keyed by page name alone (an object without prototype, or a `Map`): each visit adds 1 to that page's count, and the total is the sum of the counts | not executed | JsVisits.ConstructorVisitIsText, JsVisits.ConstructorBreaksTotal, JsVisits.ProtoVisitIgnored | Contact.VisitCounter.Visit, Contact.VisitCounter.Stats |
