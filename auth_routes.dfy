/**
 * The authentication routes under `/api/auth`: register, login, refresh,
 * logout, forgot-password, reset-password, profile read and update, and
 * change-password, each a transition over an in-memory user store.
 *
 * The collaborators whose code is not part of this model are oracles fixed
 * when the server is built: the password check of the user model (which
 * also keeps the lockout counters), the token service's issuing and
 * refresh-token verification, and express-validator's `isEmail` /
 * `normalizeEmail` chain and `isURL`. The revocation registry is the set of
 * raw tokens passed to `revokeToken`. Clock readings, the client address
 * and the random reset token are parameters.
 */
module AuthRoutes {
  import opened Wrappers
  import opened Text

  /** The fields of an account that the routes read or write. */
  datatype User = User(
    id: nat,
    username: string,
    email: string,
    password: string,   // as last assigned; hashing on save belongs to the user model
    active: bool,
    bio: string,
    avatar: string,
    loginCount: Option<nat>,
    lastLogin: Option<int>,
    lastLoginIp: Option<string>,
    resetToken: Option<string>,
    resetTokenExpiry: Option<int>)

  /** The `ApiError` codes the routes raise. */
  datatype ErrorCode =
    | ValidationError
    | EmailTaken
    | AccountLocked
    | InvalidCredentials
    | AccountInactive
    | NoRefreshToken
    | RefreshInvalid
    | UserInactive
    | InvalidResetToken
    | NotFound
    | WrongPassword
  {
    /** The HTTP status each code is sent with. */
    function Status(): nat {
      match this
      case ValidationError => 400
      case InvalidResetToken => 400
      case EmailTaken => 409
      case NotFound => 404
      case _ => 401
    }

    /** The machine-readable `code` of the error body. */
    function Code(): string {
      match this
      case ValidationError => "VALIDATION_ERROR"
      case EmailTaken => "EMAIL_TAKEN"
      case AccountLocked => "ACCOUNT_LOCKED"
      case InvalidCredentials => "INVALID_CREDENTIALS"
      case AccountInactive => "ACCOUNT_INACTIVE"
      case NoRefreshToken => "NO_REFRESH_TOKEN"
      case RefreshInvalid => "REFRESH_INVALID"
      case UserInactive => "USER_INACTIVE"
      case InvalidResetToken => "INVALID_RESET_TOKEN"
      case NotFound => "NOT_FOUND"
      case WrongPassword => "WRONG_PASSWORD"
    }
  }

  /** What `user.checkPassword(plain)` resolves to. */
  datatype Verdict = Verdict(valid: bool, locked: bool)

  /** What `tokenService.issueTokens(user)` returns. */
  datatype TokenPair = TokenPair(access: string, refresh: string)

  /** What `tokenService.verifyRefreshToken(token)` returns: the payload's subject id when valid. */
  datatype RefreshCheck = RefreshValid(id: nat) | RefreshRejected

  /** The answer of a route. */
  datatype Reply =
    | Failed(error: ErrorCode)
    | Registered(id: nat)                                   // 201 with the new account
    | LoggedIn(token: string, refreshCookie: string, id: nat)
    | Refreshed(token: string, refreshCookie: string)
    | LoggedOut                                             // refresh cookie cleared
    | ResetRequested                                        // "If that email is registered, ..."
    | PasswordReset
    | Profile(id: nat)
    | PasswordChanged                                       // refresh cookie cleared

  // ---------------------------------------------------------------------
  // Store queries
  // ---------------------------------------------------------------------

  /** `findOne(filter)`: the first account that matches. */
  function FindFirst(users: seq<User>, matches: User -> bool): (r: Option<nat>)
    ensures r.Some? ==> r.value < |users| && matches(users[r.value])
    ensures r.Some? ==> forall j :: 0 <= j < r.value ==> !matches(users[j])
    ensures r.None? <==> forall j :: 0 <= j < |users| ==> !matches(users[j])
    decreases |users|
  {
    if users == [] then None
    else if matches(users[0]) then Some(0)
    else
      var tail := FindFirst(users[1..], matches);
      assert forall j :: 1 <= j < |users| ==> users[j] == users[1..][j - 1];
      match tail
      case Some(i) => Some(i + 1)
      case None => None
  }

  /** `findOne({ email })`. */
  function FindByEmail(users: seq<User>, email: string): (r: Option<nat>)
    ensures r.Some? ==> r.value < |users| && users[r.value].email == email
    ensures r.None? <==> forall j :: 0 <= j < |users| ==> users[j].email != email
  {
    FindFirst(users, (u: User) => u.email == email)
  }

  /** The filter of `/reset-password`: `{ resetToken: token, resetTokenExpiry: { $gt: now } }`. */
  predicate ResetMatches(u: User, token: string, now: int) {
    u.resetToken == Some(token) && u.resetTokenExpiry.Some? && u.resetTokenExpiry.value > now
  }

  function FindByResetToken(users: seq<User>, token: string, now: int): (r: Option<nat>)
    ensures r.Some? ==> r.value < |users| && ResetMatches(users[r.value], token, now)
    ensures r.None? <==> forall j :: 0 <= j < |users| ==> !ResetMatches(users[j], token, now)
  {
    FindFirst(users, (u: User) => ResetMatches(u, token, now))
  }

  /**
   * The store's invariant: ids are positions, the unique index on `email`
   * holds, and every stored username and address passes the user model's
   * validators, which `save()` runs again on a loaded account.
   */
  predicate WellFormed(users: seq<User>) {
    && (forall i :: 0 <= i < |users| ==> users[i].id == i)
    && (forall i, j :: 0 <= i < j < |users| ==> users[i].email != users[j].email)
    && (forall i {:trigger StoredOk(users[i])} :: 0 <= i < |users| ==> StoredOk(users[i]))
  }

  /**
   * An account as the user model stores it: the username trimmed by its
   * setter and passing its validators (`StoredNameIsSchemaOk`), the address
   * passing its `match`.
   */
  predicate StoredOk(u: User) {
    StoredName(u.username) && EmailSchemaOk(u.email)
  }

  /** Rewriting one account keeps the invariant when its id and address stay and its username stays or passes the validators. */
  lemma UpdateKeepsWellFormed(users: seq<User>, i: nat, u: User)
    requires WellFormed(users) && i < |users|
    requires u.id == users[i].id && u.email == users[i].email
    requires u.username == users[i].username || StoredName(u.username)
    ensures WellFormed(users[i := u])
  {
    assert StoredOk(users[i]);
  }

  /** Appending an account with the next id, an unused address and values the validators accept keeps the invariant. */
  lemma AppendKeepsWellFormed(users: seq<User>, u: User)
    requires WellFormed(users) && u.id == |users|
    requires StoredOk(u)
    requires forall j :: 0 <= j < |users| ==> users[j].email != u.email
    ensures WellFormed(users + [u])
  {
  }

  // ---------------------------------------------------------------------
  // Validation rules
  // ---------------------------------------------------------------------

  /** `body("username").trim().isLength({ min: 2, max: 30 })`. */
  predicate UsernameOk(username: string) {
    2 <= |Trim(username)| <= 30
  }

  /** One character through express-validator's `escape()`. */
  function EscapeChar(c: char): string {
    match c
    case '&' => "&amp;"
    case '"' => "&quot;"
    case '\'' => "&#x27;"
    case '<' => "&lt;"
    case '>' => "&gt;"
    case '/' => "&#x2F;"
    case '\\' => "&#x5C;"
    case '`' => "&#96;"
    case _ => [c]
  }

  /** The characters `escape()` replaces by entities. */
  predicate HtmlSpecial(c: char) {
    c == '"' || c == '\'' || c == '<' || c == '>' || c == '/' || c == '\\' || c == '`'
  }

  /** express-validator's `escape()`: HTML-special characters become entities. */
  function Escape(s: string): (r: string)
    ensures forall i :: 0 <= i < |r| ==> !HtmlSpecial(r[i])
    ensures (forall i :: 0 <= i < |s| ==> !HtmlSpecial(s[i]) && s[i] != '&') ==> r == s
    decreases |s|
  {
    if s == [] then [] else EscapeChar(s[0]) + Escape(s[1..])
  }

  /** The special characters become an entity `&...;`, every other character stays. */
  lemma EscapeCharEntity(c: char)
    ensures HtmlSpecial(c) || c == '&' ==> |EscapeChar(c)| >= 4 && EscapeChar(c)[0] == '&' && EscapeChar(c)[|EscapeChar(c)| - 1] == ';'
    ensures !HtmlSpecial(c) && c != '&' ==> EscapeChar(c) == [c]
  {
  }

  /** `escape()` works character by character. */
  lemma {:induction false} EscapeAppend(a: string, b: string)
    ensures Escape(a + b) == Escape(a) + Escape(b)
    decreases |a|
  {
    if a == [] {
      assert a + b == b;
    } else {
      assert (a + b)[0] == a[0] && (a + b)[1..] == a[1..] + b;
      EscapeAppend(a[1..], b);
    }
  }

  /** The escape of one character is its entry in the entity table. */
  lemma EscapeOne(c: char)
    ensures Escape([c]) == EscapeChar(c)
  {
    assert [c][1..] == [];
  }

  /** An escape starts with the first character of the first character's escape. */
  lemma EscapeFirst(t: string)
    requires t != []
    ensures |EscapeChar(t[0])| >= 1 && Escape(t)[0] == EscapeChar(t[0])[0]
  {
    EscapeCharEntity(t[0]);
  }

  /** An escape ends with the last character of the last character's escape. */
  lemma EscapeLast(t: string)
    requires t != []
    ensures var e, c := Escape(t), EscapeChar(t[|t| - 1]);
      |c| >= 1 && |e| >= |c| && e[|e| - 1] == c[|c| - 1]
  {
    var n := |t| - 1;
    assert t == t[..n] + [t[n]];
    EscapeAppend(t[..n], [t[n]]);
    EscapeOne(t[n]);
    EscapeCharEntity(t[n]);
  }

  /** The escape of a non-whitespace character neither starts nor ends with whitespace. */
  lemma EscapeCharNotSpace(c: char)
    requires !IsSpace(c)
    ensures var e := EscapeChar(c); |e| >= 1 && !IsSpace(e[0]) && !IsSpace(e[|e| - 1])
  {
    EscapeCharEntity(c);
  }

  /** The escape of a string that does not start with whitespace does not start with whitespace. */
  lemma EscapeHeadNotSpace(t: string)
    requires t != [] && !IsSpace(t[0])
    ensures Escape(t) != [] && !IsSpace(Escape(t)[0])
  {
    EscapeFirst(t);
    EscapeCharNotSpace(t[0]);
  }

  /** The escape of a string that does not end with whitespace does not end with whitespace. */
  lemma EscapeTailNotSpace(t: string)
    requires t != [] && !IsSpace(t[|t| - 1])
    ensures Escape(t) != [] && !IsSpace(Escape(t)[|Escape(t)| - 1])
  {
    EscapeLast(t);
    EscapeCharNotSpace(t[|t| - 1]);
  }

  /** Escaping a trimmed value leaves it trimmed: the username's `trim` setter then changes nothing. */
  lemma EscapeKeepsTrimmed(t: string)
    requires Trim(t) == t
    ensures Trim(Escape(t)) == Escape(t)
  {
    if t != [] {
      TrimmedEnds(t);
      EscapeEndsKept(t, Escape(t));
    }
  }

  lemma EscapeEndsKept(t: string, e: string)
    requires e == Escape(t) && t != [] && !IsSpace(t[0]) && !IsSpace(t[|t| - 1])
    ensures Trim(e) == e
  {
    EscapeHeadNotSpace(t);
    EscapeTailNotSpace(t);
    TrimKeeps(e);
  }

  /** An escape holds an '&' wherever a special character or an '&' was. */
  lemma EscapeShowsEntity(t: string, i: nat)
    requires i < |t| && (HtmlSpecial(t[i]) || t[i] == '&')
    ensures '&' in Escape(t)
  {
    assert t == t[..i] + ([t[i]] + t[i + 1..]);
    EscapeAppend(t[..i], [t[i]] + t[i + 1..]);
    EscapeAppend([t[i]], t[i + 1..]);
    EscapeOne(t[i]);
    EscapeCharEntity(t[i]);
    assert Escape(t)[|Escape(t[..i])|] == '&';
  }

  /** `[0-9a-fA-F]` */
  predicate IsHexDigit(c: char) {
    IsDigit(c) || 'a' <= c <= 'f' || 'A' <= c <= 'F'
  }

  /** express-validator's `isHexadecimal()`: `/^(0x|0h)?[0-9a-f]+$/i`. */
  predicate IsHexadecimal(s: string) {
    var digits := if |s| >= 2 && s[0] == '0' && s[1] in "xXhH" then s[2..] else s;
    |digits| >= 1 && forall i :: 0 <= i < |digits| ==> IsHexDigit(digits[i])
  }

  /** The `token` rule of `/reset-password`: `notEmpty().isHexadecimal().isLength({ min: 64, max: 64 })`. */
  predicate ResetTokenOk(token: string) {
    token != "" && IsHexadecimal(token) && |token| == 64
  }

  /** What `crypto.randomBytes(32).toString("hex")` produces: 64 lower-case hex digits. */
  predicate RandomHex64(t: string) {
    |t| == 64 && forall i :: 0 <= i < |t| ==> IsDigit(t[i]) || 'a' <= t[i] <= 'f'
  }

  /** Every generated reset token passes the `token` rule. */
  lemma GeneratedTokenAccepted(t: string)
    requires RandomHex64(t)
    ensures ResetTokenOk(t)
  {
    assert IsDigit(t[1]) || 'a' <= t[1] <= 'f';
    assert !(t[1] in "xXhH");
    assert forall i :: 0 <= i < |t| ==> IsHexDigit(t[i]);
  }

  /** The longest prefix of decimal digits. */
  function DigitPrefix(s: string): (d: string)
    ensures |d| <= |s| && d == s[..|d|]
    ensures forall i :: 0 <= i < |d| ==> IsDigit(d[i])
    ensures |d| < |s| ==> !IsDigit(s[|d|])
    decreases |s|
  {
    if s != [] && IsDigit(s[0]) then [s[0]] + DigitPrefix(s[1..]) else []
  }

  function DigitsValue(d: string): nat
    requires forall i :: 0 <= i < |d| ==> IsDigit(d[i])
    decreases |d|
  {
    if d == [] then 0
    else
      assert IsDigit(d[|d| - 1]);
      10 * DigitsValue(d[..|d| - 1]) + (d[|d| - 1] as int - '0' as int)
  }

  /**
   * `parseInt(s, 10)`, `None` for NaN: leading whitespace is skipped, an
   * optional sign read, then the longest run of decimal digits; an unset
   * variable reads as NaN.
   */
  function ParseInt(s: Option<string>): (r: Option<int>)
    ensures s.None? ==> r.None?
  {
    if s.None? then None else ParseSignedDigits(TrimStart(s.value))
  }

  /** What `parseInt` reads after the leading whitespace: an optional sign, then decimal digits. */
  function ParseSignedDigits(t: string): Option<int> {
    var signed := |t| > 0 && (t[0] == '-' || t[0] == '+');
    var d := DigitPrefix(if signed then t[1..] else t);
    if d == [] then None
    else
      var v: int := DigitsValue(d);
      Some(if signed && t[0] == '-' then -v else v)
  }

  /** The digit prefix of digits followed by a non-digit is those digits. */
  lemma {:induction false} DigitPrefixOf(d: string, rest: string)
    requires forall i :: 0 <= i < |d| ==> IsDigit(d[i])
    requires rest == [] || !IsDigit(rest[0])
    ensures DigitPrefix(d + rest) == d
    decreases |d|
  {
    if d == [] {
      assert d + rest == rest;
    } else {
      assert (d + rest)[0] == d[0] && (d + rest)[1..] == d[1..] + rest;
      DigitPrefixOf(d[1..], rest);
    }
  }

  /** Digits first: the value of the leading digits `d`. */
  lemma ParseUnsigned(y: string, d: string)
    requires DigitPrefix(y) == d && d != []
    ensures ParseSignedDigits(y) == Some(DigitsValue(d))
  {
    assert IsDigit(y[0]);
  }

  /** A sign, then digits: the value of the leading digits `d`, negated after '-'. */
  lemma ParseWithSign(sign: char, y: string, d: string)
    requires sign == '-' || sign == '+'
    requires DigitPrefix(y) == d && d != []
    ensures var v: int := DigitsValue(d); ParseSignedDigits([sign] + y) == Some(if sign == '-' then -v else v)
  {
    var x := [sign] + y;
    assert x[1..] == y;
  }

  /** `parseInt` skips the whitespace in front. */
  lemma ParseSkipsSpace(w: string, x: string)
    requires AllSpace(w) && x != [] && !IsSpace(x[0])
    ensures ParseInt(Some(w + x)) == ParseSignedDigits(x)
  {
    TrimStartSkips(w, x);
  }

  /** Digits followed by a non-digit: the value of those digits. */
  lemma ParseDigitsFirst(d: string, rest: string)
    requires |d| >= 1 && forall i :: 0 <= i < |d| ==> IsDigit(d[i])
    requires rest == [] || !IsDigit(rest[0])
    ensures ParseSignedDigits(d + rest) == Some(DigitsValue(d))
  {
    DigitPrefixOf(d, rest);
    ParseUnsigned(d + rest, d);
  }

  /** A sign, then digits followed by a non-digit: the value of those digits, negated after '-'. */
  lemma ParseSignFirst(s: char, d: string, rest: string)
    requires s == '-' || s == '+'
    requires |d| >= 1 && forall i :: 0 <= i < |d| ==> IsDigit(d[i])
    requires rest == [] || !IsDigit(rest[0])
    ensures var v: int := DigitsValue(d); ParseSignedDigits([s] + (d + rest)) == Some(if s == '-' then -v else v)
  {
    DigitPrefixOf(d, rest);
    ParseWithSign(s, d + rest, d);
  }

  lemma JoinDigits(w: string, d: string, rest: string)
    ensures w + d + rest == w + (d + rest)
  {
  }

  lemma JoinSigned(w: string, s: char, d: string, rest: string)
    ensures w + [s] + d + rest == w + ([s] + (d + rest))
  {
  }

  lemma DigitsLead(d: string, rest: string)
    requires |d| >= 1 && IsDigit(d[0])
    ensures d + rest != [] && !IsSpace((d + rest)[0])
  {
    assert (d + rest)[0] == d[0];
  }

  lemma ParseSkipsSpaceTo(w: string, x: string, v: Option<int>)
    requires AllSpace(w) && x != [] && !IsSpace(x[0])
    requires ParseSignedDigits(x) == v
    ensures ParseInt(Some(w + x)) == v
  {
    ParseSkipsSpace(w, x);
  }

  lemma ParseSkipsToDigits(w: string, d: string, rest: string)
    requires AllSpace(w)
    requires |d| >= 1 && forall i :: 0 <= i < |d| ==> IsDigit(d[i])
    requires rest == [] || !IsDigit(rest[0])
    ensures ParseInt(Some(w + (d + rest))) == Some(DigitsValue(d))
  {
    ParseDigitsFirst(d, rest);
    DigitsLead(d, rest);
    ParseSkipsSpaceTo(w, d + rest, Some(DigitsValue(d)));
  }

  lemma ParseSkipsToSign(w: string, s: char, d: string, rest: string)
    requires AllSpace(w) && (s == '-' || s == '+')
    ensures ParseInt(Some(w + ([s] + (d + rest)))) == ParseSignedDigits([s] + (d + rest))
  {
    var x := [s] + (d + rest);
    assert x[0] == s;
    ParseSkipsSpace(w, x);
  }

  lemma ParseSkipsToSignedValue(w: string, s: char, d: string, rest: string)
    requires AllSpace(w) && (s == '-' || s == '+')
    requires |d| >= 1 && forall i :: 0 <= i < |d| ==> IsDigit(d[i])
    requires rest == [] || !IsDigit(rest[0])
    ensures var v: int := DigitsValue(d); ParseInt(Some(w + ([s] + (d + rest)))) == Some(if s == '-' then -v else v)
  {
    ParseSkipsToSign(w, s, d, rest);
    ParseSignFirst(s, d, rest);
  }

  /** Whitespace, then digits: the value of the digits. */
  lemma ParseIntUnsigned(w: string, d: string, rest: string)
    requires AllSpace(w)
    requires |d| >= 1 && forall i :: 0 <= i < |d| ==> IsDigit(d[i])
    requires rest == [] || !IsDigit(rest[0])
    ensures ParseInt(Some(w + d + rest)) == Some(DigitsValue(d))
  {
    JoinDigits(w, d, rest);
    ParseSkipsToDigits(w, d, rest);
  }

  /** Whitespace, a sign, then digits: the value of the digits, negated after '-'. */
  lemma ParseIntSigned(w: string, s: char, d: string, rest: string)
    requires AllSpace(w) && (s == '-' || s == '+')
    requires |d| >= 1 && forall i :: 0 <= i < |d| ==> IsDigit(d[i])
    requires rest == [] || !IsDigit(rest[0])
    ensures var v: int := DigitsValue(d); ParseInt(Some(w + [s] + d + rest)) == Some(if s == '-' then -v else v)
  {
    JoinSigned(w, s, d, rest);
    ParseSkipsToSignedValue(w, s, d, rest);
  }

  /** Whitespace, an optional sign, then digits: the value of the digits, negated after '-'. */
  lemma ParseIntOf(w: string, sign: string, d: string, rest: string)
    requires AllSpace(w) && (sign == "" || sign == "-" || sign == "+")
    requires |d| >= 1 && forall i :: 0 <= i < |d| ==> IsDigit(d[i])
    requires rest == [] || !IsDigit(rest[0])
    ensures var v: int := DigitsValue(d); ParseInt(Some(w + sign + d + rest)) == Some(if sign == "-" then -v else v)
  {
    if sign == "" {
      JoinNoSign(w, sign, d, rest);
      ParseIntUnsigned(w, d, rest);
    } else {
      JoinOneSign(w, sign, d, rest);
      ParseIntSigned(w, sign[0], d, rest);
    }
  }

  lemma JoinNoSign(w: string, sign: string, d: string, rest: string)
    requires sign == ""
    ensures w + sign + d + rest == w + d + rest
  {
  }

  lemma JoinOneSign(w: string, sign: string, d: string, rest: string)
    requires |sign| == 1
    ensures w + sign + d + rest == w + [sign[0]] + d + rest
  {
    assert sign == [sign[0]];
  }

  const DefaultResetExpiryMs: int := 15 * 60 * 1000

  /** `parseInt(process.env.RESET_TOKEN_EXPIRY_MS, 10) || 15 * 60 * 1000`: NaN and 0 both fall back to the default. */
  function ResetExpiryMs(env: Option<string>): (ms: int)
    ensures ms != 0
    ensures env.None? ==> ms == DefaultResetExpiryMs
    ensures ParseInt(env).Some? && ParseInt(env).value != 0 ==> ms == ParseInt(env).value
    ensures ms != DefaultResetExpiryMs ==> ParseInt(env) == Some(ms)
  {
    match ParseInt(env)
    case Some(v) => if v != 0 then v else DefaultResetExpiryMs
    case None => DefaultResetExpiryMs
  }

  /** With no digit after the whitespace and an optional sign, `parseInt` answers NaN. */
  lemma ParseIntNaN(w: string, sign: string, rest: string)
    requires AllSpace(w) && (sign == "" || sign == "-" || sign == "+")
    requires rest == [] || !IsDigit(rest[0])
    requires sign == "" && rest != [] ==> !IsSpace(rest[0]) && rest[0] != '-' && rest[0] != '+'
    ensures ParseInt(Some(w + sign + rest)) == None
    ensures ResetExpiryMs(Some(w + sign + rest)) == DefaultResetExpiryMs
  {
    SignedLead(sign, rest);
    SignedDigitsNaN(sign, rest);
    JoinSignRest(w, sign, rest);
    ParseSkipsToNaN(w, sign + rest);
  }

  lemma JoinSignRest(w: string, sign: string, rest: string)
    ensures w + sign + rest == w + (sign + rest)
  {
  }

  lemma ParseSkipsToNaN(w: string, x: string)
    requires AllSpace(w) && (x == [] || !IsSpace(x[0]))
    requires ParseSignedDigits(x) == None
    ensures ParseInt(Some(w + x)) == None
  {
    TrimStartSkips(w, x);
    TrimStartStays(x);
  }

  lemma SignedLead(sign: string, rest: string)
    requires sign == "" || sign == "-" || sign == "+"
    requires sign == "" && rest != [] ==> !IsSpace(rest[0])
    ensures sign + rest == [] || !IsSpace((sign + rest)[0])
  {
    if sign != "" {
      assert (sign + rest)[0] == sign[0];
    } else {
      assert sign + rest == rest;
    }
  }

  lemma SignedDigitsNaN(sign: string, rest: string)
    requires sign == "" || sign == "-" || sign == "+"
    requires rest == [] || !IsDigit(rest[0])
    requires sign == "" && rest != [] ==> rest[0] != '-' && rest[0] != '+'
    ensures ParseSignedDigits(sign + rest) == None
  {
    var x := sign + rest;
    if sign != "" {
      assert x[0] == sign[0] && x[1..] == rest;
    } else {
      assert x == rest;
    }
  }

  /** A value without a digit, such as "abc", reads as NaN, so the expiry falls back to 15 minutes. */
  lemma ParseIntNoDigits(v: string)
    requires forall i :: 0 <= i < |v| ==> !IsDigit(v[i])
    ensures ParseInt(Some(v)) == None
    ensures ResetExpiryMs(Some(v)) == DefaultResetExpiryMs
  {
    var t := TrimStart(v);
    assert t == v[|v| - |t|..];
    if |t| > 0 {
      assert !IsDigit(t[0]);
    }
    if |t| > 1 {
      assert !IsDigit(t[1]);
    }
  }

  // ---------------------------------------------------------------------
  // The user model's validators (run by `User.create` and by updates with `runValidators`)
  // ---------------------------------------------------------------------

  /** `[a-zA-Z0-9_\- ]` */
  predicate UsernameSchemaChar(c: char) {
    IsAlnum(c) || c == '_' || c == '-' || c == ' '
  }

  /** The `username` path: trimmed by its setter, then 2 to 30 characters matching `^[a-zA-Z0-9_\- ]+$`. */
  predicate UsernameSchemaOk(v: string) {
    var t := Trim(v);
    2 <= |t| <= 30 && forall i :: 0 <= i < |t| ==> UsernameSchemaChar(t[i])
  }

  /** A value as the `username` path holds it: trimmed, 2 to 30 characters of `[a-zA-Z0-9_\- ]`. */
  predicate StoredName(n: string) {
    && 2 <= |n| <= 30 && !IsSpace(n[0]) && !IsSpace(n[|n| - 1])
    && forall i :: 0 <= i < |n| ==> UsernameSchemaChar(n[i])
  }

  /** The stored form of a name is exactly a trimmed value the username validators accept. */
  lemma StoredNameIsSchemaOk(n: string)
    ensures StoredName(n) <==> Trim(n) == n && UsernameSchemaOk(n)
  {
    if StoredName(n) {
      TrimKeeps(n);
    }
    if Trim(n) == n && UsernameSchemaOk(n) {
      TrimmedEnds(n);
    }
  }

  /** A name the routes escape and the validators accept is stored as it is. */
  lemma EscapedNameStored(raw: string)
    requires UsernameSchemaOk(Escape(Trim(raw)))
    ensures StoredName(Escape(Trim(raw)))
  {
    TrimTwice(raw);
    EscapeKeepsTrimmed(Trim(raw));
    StoredNameIsSchemaOk(Escape(Trim(raw)));
  }

  /** The `email` path's `match`, the pattern of `Text.IsEmail`. */
  predicate EmailSchemaOk(e: string) {
    IsEmail(e)
  }

  /** A trimmed name the model accepts holds no '&'. */
  lemma SchemaNameHasNoAmpersand(v: string)
    requires Trim(v) == v && UsernameSchemaOk(v)
    ensures '&' !in v
  {
    forall k | 0 <= k < |v| ensures v[k] != '&' {
      assert UsernameSchemaChar(v[k]);
    }
  }

  /** An escape without '&' escaped nothing: the string had no special character and no '&'. */
  lemma PlainWithoutAmpersand(t: string)
    requires '&' !in Escape(t)
    ensures forall i :: 0 <= i < |t| ==> !HtmlSpecial(t[i]) && t[i] != '&'
  {
    forall i | 0 <= i < |t| ensures !HtmlSpecial(t[i]) && t[i] != '&' {
      if HtmlSpecial(t[i]) || t[i] == '&' {
        EscapeShowsEntity(t, i);
      }
    }
  }

  /** An escaped username the model accepts is one that escaping left unchanged: no stored name holds an entity. */
  lemma SchemaRefusesEntities(t: string)
    requires Trim(t) == t && UsernameSchemaOk(Escape(t))
    ensures Escape(t) == t
  {
    EscapeKeepsTrimmed(t);
    SchemaNameHasNoAmpersand(Escape(t));
    PlainWithoutAmpersand(t);
  }

  /** A username holding a character that `escape()` replaces is refused by the model once escaped. */
  lemma SpecialNameRefused(u: string, i: nat)
    requires i < |Trim(u)| && (HtmlSpecial(Trim(u)[i]) || Trim(u)[i] == '&')
    ensures !UsernameSchemaOk(Escape(Trim(u)))
  {
    var t := Trim(u);
    TrimKeeps(t);
    EscapeShowsEntity(t, i);
    if UsernameSchemaOk(Escape(t)) {
      EscapeKeepsTrimmed(t);
      SchemaNameHasNoAmpersand(Escape(t));
    }
  }

  /** "O'Brien" passes the route's rule, but its escape "O&#x27;Brien" is refused by the model. */
  lemma ApostropheNameRefused()
    ensures UsernameOk("O'Brien")
    ensures !UsernameSchemaOk(Escape(Trim("O'Brien")))
  {
    var s := "O'Brien";
    assert NoSpace(s);
    assert Trim(s) == s;
    SpecialNameRefused(s, 1);
  }

  // ---------------------------------------------------------------------
  // Decisions of the handlers
  // ---------------------------------------------------------------------

  /**
   * The checks of `/login` once the password check has answered (a missing
   * account is answered `{ valid: false, locked: false }` without a check):
   * a locked account is refused before any credential verdict, a missing
   * account and a wrong password are refused alike, and the active flag is
   * looked at only after a valid password.
   */
  function LoginGate(user: Option<User>, verdict: Verdict): (r: Option<ErrorCode>)
    ensures verdict.locked ==> r == Some(AccountLocked)
    ensures r == None <==> user.Some? && verdict.valid && !verdict.locked && user.value.active
    ensures r == Some(AccountInactive) ==> user.Some? && verdict.valid && !verdict.locked
    ensures user.None? && !verdict.locked ==> r == Some(InvalidCredentials)
    ensures user.Some? && !verdict.valid && !verdict.locked ==> r == Some(InvalidCredentials)
    ensures user.Some? && verdict.valid && !verdict.locked && !user.value.active ==> r == Some(AccountInactive)
    ensures r.Some? ==> r.value in {AccountLocked, InvalidCredentials, AccountInactive}
  {
    if verdict.locked then Some(AccountLocked)
    else if user.None? || !verdict.valid then Some(InvalidCredentials)
    else if !user.value.active then Some(AccountInactive)
    else None
  }

  /** The record after a successful login: `lastLogin`, `lastLoginIp` and `loginCount` (a missing count read as 0) change, nothing else. */
  function RecordLogin(u: User, now: int, ip: string): (r: User)
    ensures r.loginCount.Some? && r.loginCount.value == u.loginCount.GetOr(0) + 1
    ensures r.lastLogin == Some(now) && r.lastLoginIp == Some(ip)
    ensures r.(loginCount := u.loginCount, lastLogin := u.lastLogin, lastLoginIp := u.lastLoginIp) == u
  {
    var r := u.(lastLogin := Some(now));
    var r := r.(lastLoginIp := Some(ip));
    r.(loginCount := Some(r.loginCount.GetOr(0) + 1))
  }

  /** `req.headers.authorization?.split(" ")[1]`, kept only when non-empty (the `if (raw)` test). */
  function HeaderToken(authorization: Option<string>): (t: Option<string>)
    ensures t.Some? ==> t.value != "" && ' ' !in t.value
  {
    if authorization.None? then None
    else
      var parts := Split(authorization.value, ' ');
      if |parts| >= 2 && parts[1] != "" then Some(parts[1]) else None
  }

  /** A header `Bearer <token>` (section 2.1 of RFC 6750) yields the token, provided it has no space. */
  lemma BearerHeaderToken(token: string)
    requires token != "" && ' ' !in token
    ensures HeaderToken(Some("Bearer " + token)) == Some(token)
  {
    SplitJoin(["Bearer", token], ' ');
    assert Join(["Bearer", token], ' ') == "Bearer " + token;
  }

  /** The whitelist of PATCH `/profile`. */
  const Allowed: seq<string> := ["username", "bio", "avatar"]

  /**
   * `ALLOWED.forEach((k) => { if (req.body[k] !== undefined) updates[k] = req.body[k]; })`:
   * exactly the whitelisted fields present in the body, with their values.
   */
  method BuildUpdates(body: map<string, string>) returns (updates: map<string, string>)
    ensures forall k :: k in updates <==> k in body && k in {"username", "bio", "avatar"}
    ensures forall k :: k in updates ==> updates[k] == body[k]
  {
    updates := map[];
    for i := 0 to |Allowed|
      invariant forall k :: k in updates <==> k in body && k in Allowed[..i]
      invariant forall k :: k in updates ==> updates[k] == body[k]
    {
      var k := Allowed[i];
      if k in body {
        updates := updates[k := body[k]];
      }
    }
    assert Allowed[..|Allowed|] == Allowed;
  }

  /** `{ $set: updates }` restricted to the whitelisted fields: only `username`, `bio` and `avatar` can change. */
  function ApplyUpdates(u: User, updates: map<string, string>): (r: User)
    ensures r.username == (if "username" in updates then updates["username"] else u.username)
    ensures r.bio == (if "bio" in updates then updates["bio"] else u.bio)
    ensures r.avatar == (if "avatar" in updates then updates["avatar"] else u.avatar)
    ensures r.(username := u.username, bio := u.bio, avatar := u.avatar) == u
  {
    var r := if "username" in updates then u.(username := updates["username"]) else u;
    var r := if "bio" in updates then r.(bio := updates["bio"]) else r;
    if "avatar" in updates then r.(avatar := updates["avatar"]) else r
  }

  /** The optional rules of PATCH `/profile`, on the trimmed values of the fields present. */
  predicate ProfileFieldsOk(body: map<string, string>, isURL: string -> bool) {
    && ("username" in body ==> UsernameOk(body["username"]))
    && ("bio" in body ==> |Trim(body["bio"])| <= 200)
    && ("avatar" in body ==> isURL(Trim(body["avatar"])))
  }

  /** The body after the sanitisers of PATCH `/profile`: fields trimmed, the username also escaped. */
  function SanitizeProfile(body: map<string, string>): (r: map<string, string>)
    ensures r.Keys == body.Keys
    ensures forall k :: k in body && k != "username" && k != "bio" && k != "avatar" ==> r[k] == body[k]
  {
    TrimField(TrimField(EscapeField(body, "username"), "bio"), "avatar")
  }

  /** `body(k).trim()`: the field `k`, when present, trimmed. */
  function TrimField(m: map<string, string>, k: string): (r: map<string, string>)
    ensures r.Keys == m.Keys
    ensures k in m ==> r[k] == Trim(m[k])
    ensures forall j :: j in m && j != k ==> r[j] == m[j]
  {
    if k in m then m[k := Trim(m[k])] else m
  }

  /** `body(k).trim().escape()`: the field `k`, when present, trimmed and escaped. */
  function EscapeField(m: map<string, string>, k: string): (r: map<string, string>)
    ensures r.Keys == m.Keys
    ensures k in m ==> r[k] == Escape(Trim(m[k]))
    ensures forall j :: j in m && j != k ==> r[j] == m[j]
  {
    if k in m then m[k := Escape(Trim(m[k]))] else m
  }

  /** The validators `runValidators` applies to a `$set`: those of the username (the bio's `maxlength: 200` is already met). */
  predicate ProfileSchemaOk(updates: map<string, string>) {
    "username" in updates ==> UsernameSchemaOk(updates["username"])
  }

  /** A username the update validators accept is stored as `SanitizeProfile` leaves it. */
  lemma SanitizedNameStored(body: map<string, string>)
    requires "username" in body && ProfileSchemaOk(SanitizeProfile(body))
    ensures StoredName(SanitizeProfile(body)["username"])
  {
    assert SanitizeProfile(body)["username"] == Escape(Trim(body["username"]));
    EscapedNameStored(body["username"]);
  }

  /** The account `User.create({ username, email, password })` makes. */
  function NewUser(id: nat, username: string, email: string, password: string): User {
    User(id, username, email, password, true, "", "", Some(0), None, None, None, None)
  }

  // ---------------------------------------------------------------------
  // The routes
  // ---------------------------------------------------------------------

  class AuthServer {
    /** The accounts; an account's id is its position. */
    var users: seq<User>
    /** The raw tokens passed to `tokenService.revokeToken`. */
    var revoked: set<string>

    /** `isEmail().normalizeEmail()`: the normalised address, or `None` when the address is rejected. */
    const emailRule: string -> Option<string>
    const isURL: string -> bool
    /** `user.checkPassword(plain)` of the user model. */
    const checkPassword: (User, string) -> Verdict
    const issueTokens: User -> TokenPair
    const verifyRefreshToken: string -> RefreshCheck

    ghost predicate Valid()
      reads this
    {
      WellFormed(users)
    }

    constructor (emailRule: string -> Option<string>, isURL: string -> bool,
                 checkPassword: (User, string) -> Verdict,
                 issueTokens: User -> TokenPair, verifyRefreshToken: string -> RefreshCheck)
      ensures Valid() && users == [] && revoked == {}
      ensures this.emailRule == emailRule && this.isURL == isURL && this.checkPassword == checkPassword
      ensures this.issueTokens == issueTokens && this.verifyRefreshToken == verifyRefreshToken
    {
      users, revoked := [], {};
      this.emailRule, this.isURL, this.checkPassword := emailRule, isURL, checkPassword;
      this.issueTokens, this.verifyRefreshToken := issueTokens, verifyRefreshToken;
    }

    /** Writes one account back (`save()`, or an update of one document); the validators have passed. */
    method Save(i: nat, u: User)
      requires Valid() && i < |users|
      requires u.id == users[i].id && u.email == users[i].email
      requires u.username == users[i].username || StoredName(u.username)
      modifies this`users
      ensures Valid() && users == old(users)[i := u]
    {
      UpdateKeepsWellFormed(users, i, u);
      users := users[i := u];
    }

    /** `User.findById(id)`. */
    function FindById(id: nat): (r: Option<User>)
      reads this
      requires Valid()
      ensures r.Some? <==> id < |users|
      ensures r.Some? ==> r.value == users[id] && r.value.id == id
    {
      if id < |users| then Some(users[id]) else None
    }

    predicate RegisterInputOk(username: string, email: string, password: string) {
      UsernameOk(username) && emailRule(email).Some? && StrongPassword(password)
    }

    /** POST `/register`. */
    method Register(username: string, email: string, password: string) returns (reply: Reply)
      requires Valid()
      modifies this`users
      ensures Valid()
      ensures !RegisterInputOk(username, email, password) ==> reply == Failed(ValidationError) && users == old(users)
      ensures RegisterInputOk(username, email, password) ==>
        var e, name := emailRule(email).value, Escape(Trim(username));
        // an address already registered is refused and nothing is created
        && (reply == Failed(EmailTaken) <==> exists j :: 0 <= j < |old(users)| && old(users)[j].email == e)
        && (reply == Failed(EmailTaken) ==> users == old(users))
        // an account the user model's validators refuse is not created
        && (reply != Failed(EmailTaken) && !(UsernameSchemaOk(name) && EmailSchemaOk(e)) ==>
              reply == Failed(ValidationError) && users == old(users))
        // otherwise exactly one account is added
        && (reply != Failed(EmailTaken) && UsernameSchemaOk(name) && EmailSchemaOk(e) ==>
              reply == Registered(|old(users)|) &&
              users == old(users) + [NewUser(|old(users)|, name, e, password)])
    {
      if !RegisterInputOk(username, email, password) {
        return Failed(ValidationError);
      }
      var e := emailRule(email).value;
      var found := FindByEmail(users, e);
      if found.Some? {
        return Failed(EmailTaken);
      }
      var name := Escape(Trim(username));
      if !(UsernameSchemaOk(name) && EmailSchemaOk(e)) {
        return Failed(ValidationError);
      }
      var user := NewUser(|users|, name, e, password);
      EscapedNameStored(username);
      AppendKeepsWellFormed(users, user);
      users := users + [user];
      reply := Registered(user.id);
    }

    /** The account the login address names, if any. */
    function LoginAccount(email: string): (r: Option<nat>)
      reads this
      requires Valid() && emailRule(email).Some?
      ensures r.Some? ==> r.value < |users| && users[r.value].email == emailRule(email).value
      ensures r.None? <==> forall j :: 0 <= j < |users| ==> users[j].email != emailRule(email).value
    {
      FindByEmail(users, emailRule(email).value)
    }

    /** The verdict the login path acts on: the password check, or `{ valid: false, locked: false }` without an account. */
    function LoginVerdict(email: string, password: string): (v: Verdict)
      reads this
      requires Valid() && emailRule(email).Some?
      ensures LoginAccount(email).None? ==> v == Verdict(false, false)
    {
      var i := LoginAccount(email);
      if i.Some? then checkPassword(users[i.value], password) else Verdict(false, false)
    }

    /** POST `/login`. */
    method Login(email: string, password: string, now: int, ip: string) returns (reply: Reply)
      requires Valid()
      modifies this`users
      ensures Valid()
      ensures !(emailRule(email).Some? && password != "") ==> reply == Failed(ValidationError) && users == old(users)
      ensures emailRule(email).Some? && password != "" ==>
        var i := old(LoginAccount(email));
        var gate := LoginGate(if i.Some? then Some(old(users)[i.value]) else None, old(LoginVerdict(email, password)));
        // refused exactly as the gate decides, and then nothing is written
        && (gate.Some? ==> reply == Failed(gate.value) && users == old(users))
        // otherwise the login is recorded and tokens are issued for the recorded account
        && (gate.None? ==>
              && users == old(users)[i.value := RecordLogin(old(users)[i.value], now, ip)]
              && reply == LoggedIn(issueTokens(users[i.value]).access, issueTokens(users[i.value]).refresh, i.value))
    {
      if !(emailRule(email).Some? && password != "") {
        return Failed(ValidationError);
      }
      var i := LoginAccount(email);
      var user := if i.Some? then Some(users[i.value]) else None;
      var verdict := LoginVerdict(email, password);
      var gate := LoginGate(user, verdict);
      if gate.Some? {
        return Failed(gate.value);
      }
      var u := user.value;
      u := u.(lastLogin := Some(now));
      u := u.(lastLoginIp := Some(ip));
      u := u.(loginCount := Some(u.loginCount.GetOr(0) + 1));
      assert u == RecordLogin(users[i.value], now, ip);
      Save(i.value, u);
      var pair := issueTokens(u);
      reply := LoggedIn(pair.access, pair.refresh, u.id);
    }

    /** POST `/refresh`; `cookie` is the `refreshToken` cookie. Nothing is written. */
    method Refresh(cookie: Option<string>) returns (reply: Reply)
      requires Valid()
      // first: a missing or empty cookie
      ensures (cookie.None? || cookie.value == "") ==> reply == Failed(NoRefreshToken)
      // then: a token the service rejects
      ensures cookie.Some? && cookie.value != "" && verifyRefreshToken(cookie.value).RefreshRejected? ==>
                reply == Failed(RefreshInvalid)
      // then: a subject that is missing or inactive
      ensures cookie.Some? && cookie.value != "" && verifyRefreshToken(cookie.value).RefreshValid? ==>
                var id := verifyRefreshToken(cookie.value).id;
                reply == if id < |users| && users[id].active
                         then Refreshed(issueTokens(users[id]).access, issueTokens(users[id]).refresh)
                         else Failed(UserInactive)
      ensures reply.Failed? || reply.Refreshed?
    {
      if cookie.None? || cookie.value == "" {
        return Failed(NoRefreshToken);
      }
      var check := verifyRefreshToken(cookie.value);
      if check.RefreshRejected? {
        return Failed(RefreshInvalid);
      }
      var user := FindById(check.id);
      if user.None? || !user.value.active {
        return Failed(UserInactive);
      }
      var pair := issueTokens(user.value);
      reply := Refreshed(pair.access, pair.refresh);
    }

    /** POST `/logout`: revokes the header's token when there is one, and always succeeds. */
    method Logout(authorization: Option<string>) returns (reply: Reply)
      modifies this`revoked
      ensures reply == LoggedOut
      ensures revoked == old(revoked) + (if HeaderToken(authorization).Some? then {HeaderToken(authorization).value} else {})
    {
      var raw := HeaderToken(authorization);
      if raw.Some? {
        revoked := revoked + {raw.value};
      }
      reply := LoggedOut;
    }

    /**
     * POST `/forgot-password`. `newToken` is the random token, `now` the clock
     * and `env` the `RESET_TOKEN_EXPIRY_MS` variable.
     */
    method ForgotPassword(email: string, now: int, newToken: string, env: Option<string>) returns (reply: Reply)
      requires Valid()
      requires RandomHex64(newToken)
      modifies this`users
      ensures Valid()
      // the answer depends on the address's form only, never on whether it is registered
      ensures reply == if emailRule(email).Some? then ResetRequested else Failed(ValidationError)
      ensures emailRule(email).None? || FindByEmail(old(users), emailRule(email).value).None? ==> users == old(users)
      // a registered address gets a token that expires `expiryMs` from now; nothing else changes
      ensures emailRule(email).Some? && FindByEmail(old(users), emailRule(email).value).Some? ==>
        var i := FindByEmail(old(users), emailRule(email).value).value;
        users == old(users)[i := old(users)[i].(resetToken := Some(newToken), resetTokenExpiry := Some(now + ResetExpiryMs(env)))]
    {
      if emailRule(email).None? {
        return Failed(ValidationError);
      }
      reply := ResetRequested;
      var i := FindByEmail(users, emailRule(email).value);
      if i.None? {
        return;
      }
      StoreResetToken(i.value, newToken, now, env);
    }

    /** The token and its expiry, `expiryMs` from `now`, stored on account `i`. */
    method StoreResetToken(i: nat, token: string, now: int, env: Option<string>)
      requires Valid() && i < |users|
      modifies this`users
      ensures Valid()
      ensures users == old(users)[i := old(users)[i].(resetToken := Some(token), resetTokenExpiry := Some(now + ResetExpiryMs(env)))]
    {
      var u := users[i].(resetToken := Some(token), resetTokenExpiry := Some(now + ResetExpiryMs(env)));
      Save(i, u);
    }

    /** POST `/reset-password`. */
    method ResetPassword(token: string, newPassword: string, now: int) returns (reply: Reply)
      requires Valid()
      modifies this`users
      ensures Valid()
      ensures !(ResetTokenOk(token) && StrongPassword(newPassword)) ==> reply == Failed(ValidationError) && users == old(users)
      ensures ResetTokenOk(token) && StrongPassword(newPassword) ==>
        var i := FindByResetToken(old(users), token, now);
        // only a stored token that has not expired is accepted
        && (i.None? ==> reply == Failed(InvalidResetToken) && users == old(users))
        // the password is replaced and the token consumed
        && (i.Some? ==>
              reply == PasswordReset &&
              users == old(users)[i.value := old(users)[i.value].(password := newPassword, resetToken := None, resetTokenExpiry := None)])
    {
      if !(ResetTokenOk(token) && StrongPassword(newPassword)) {
        return Failed(ValidationError);
      }
      var i := FindByResetToken(users, token, now);
      if i.None? {
        return Failed(InvalidResetToken);
      }
      var u := users[i.value];
      u := u.(password := newPassword);
      u := u.(resetToken := None);
      u := u.(resetTokenExpiry := None);
      Save(i.value, u);
      reply := PasswordReset;
    }

    /** GET `/profile` for the authenticated caller. */
    method GetProfile(callerId: nat) returns (reply: Reply)
      requires Valid()
      ensures reply == if callerId < |users| then Profile(callerId) else Failed(NotFound)
    {
      var user := FindById(callerId);
      if user.None? {
        return Failed(NotFound);
      }
      reply := Profile(user.value.id);
    }

    /** PATCH `/profile` for the authenticated caller. */
    method PatchProfile(callerId: nat, body: map<string, string>) returns (reply: Reply)
      requires Valid()
      modifies this`users
      ensures Valid()
      ensures !ProfileFieldsOk(body, isURL) ==> reply == Failed(ValidationError) && users == old(users)
      // the update validators refuse a username the user model would not store
      ensures ProfileFieldsOk(body, isURL) && !ProfileSchemaOk(SanitizeProfile(body)) ==>
        reply == Failed(ValidationError) && users == old(users)
      ensures ProfileFieldsOk(body, isURL) && ProfileSchemaOk(SanitizeProfile(body)) && callerId >= |old(users)| ==>
        reply == Failed(NotFound) && users == old(users)
      ensures ProfileFieldsOk(body, isURL) && ProfileSchemaOk(SanitizeProfile(body)) && callerId < |old(users)| ==>
        var b := SanitizeProfile(body);
        && reply == Profile(callerId)
        && |users| == |old(users)|
        // other accounts are untouched
        && (forall j :: 0 <= j < |users| && j != callerId ==> users[j] == old(users)[j])
        // only username, bio and avatar may change, each only when sent
        && users[callerId].(username := old(users)[callerId].username, bio := old(users)[callerId].bio,
                            avatar := old(users)[callerId].avatar) == old(users)[callerId]
        && users[callerId].username == (if "username" in b then b["username"] else old(users)[callerId].username)
        && users[callerId].bio == (if "bio" in b then b["bio"] else old(users)[callerId].bio)
        && users[callerId].avatar == (if "avatar" in b then b["avatar"] else old(users)[callerId].avatar)
    {
      if !ProfileFieldsOk(body, isURL) {
        return Failed(ValidationError);
      }
      var b := SanitizeProfile(body);
      var updates := BuildUpdates(b);
      if !ProfileSchemaOk(updates) {
        return Failed(ValidationError);
      }
      var user := FindById(callerId);
      if user.None? {
        return Failed(NotFound);
      }
      var u := ApplyUpdates(user.value, updates);
      if "username" in updates {
        SanitizedNameStored(body);
      }
      Save(callerId, u);
      reply := Profile(callerId);
    }

    predicate ChangeInputOk(currentPassword: string, newPassword: string) {
      currentPassword != "" && StrongPassword(newPassword) && newPassword != currentPassword
    }

    /** POST `/change-password` for the authenticated caller; `callerToken` is the access token it presented. */
    method ChangePassword(callerId: nat, callerToken: Option<string>, currentPassword: string, newPassword: string)
      returns (reply: Reply)
      requires Valid()
      modifies this`users, this`revoked
      ensures Valid()
      ensures reply != PasswordChanged ==> users == old(users) && revoked == old(revoked)
      ensures !ChangeInputOk(currentPassword, newPassword) ==> reply == Failed(ValidationError)
      ensures ChangeInputOk(currentPassword, newPassword) && callerId >= |old(users)| ==> reply == Failed(NotFound)
      ensures ChangeInputOk(currentPassword, newPassword) && callerId < |old(users)| ==>
        // a wrong current password changes nothing
        && (!checkPassword(old(users)[callerId], currentPassword).valid ==> reply == Failed(WrongPassword))
        // success replaces the password and revokes the caller's token
        && (checkPassword(old(users)[callerId], currentPassword).valid ==>
              && reply == PasswordChanged
              && users == old(users)[callerId := old(users)[callerId].(password := newPassword)]
              && revoked == old(revoked) + (if callerToken.Some? && callerToken.value != "" then {callerToken.value} else {}))
    {
      if !ChangeInputOk(currentPassword, newPassword) {
        return Failed(ValidationError);
      }
      var user := FindById(callerId);
      if user.None? {
        return Failed(NotFound);
      }
      var verdict := checkPassword(user.value, currentPassword);
      if !verdict.valid {
        return Failed(WrongPassword);
      }
      var u := user.value;
      u := u.(password := newPassword);
      Save(callerId, u);
      if callerToken.Some? && callerToken.value != "" {
        revoked := revoked + {callerToken.value};
      }
      reply := PasswordChanged;
    }
  }

  // ---------------------------------------------------------------------
  // Sequences of requests, from the route contracts alone
  // ---------------------------------------------------------------------

  /** Registering an address some account already has is refused with 409 and creates nothing. */
  method RegisterKnownAddress(server: AuthServer, username: string, email: string, password: string, j: nat)
    returns (reply: Reply)
    requires server.Valid() && server.RegisterInputOk(username, email, password)
    requires j < |server.users| && server.users[j].email == server.emailRule(email).value
    modifies server`users
    ensures reply == Failed(EmailTaken) && reply.error.Status() == 409
    ensures server.users == old(server.users)
  {
    ghost var e := server.emailRule(email).value;
    assert server.users[j].email == e;
    reply := server.Register(username, email, password);
    assert reply == Failed(EmailTaken);
  }

  /** Registering a new address that the validators accept creates the account under that address. */
  method RegisterNewAddress(server: AuthServer, username: string, email: string, password: string)
    returns (reply: Reply)
    requires server.Valid() && server.RegisterInputOk(username, email, password)
    requires UsernameSchemaOk(Escape(Trim(username))) && EmailSchemaOk(server.emailRule(email).value)
    requires FindByEmail(server.users, server.emailRule(email).value).None?
    modifies server`users
    ensures server.Valid()
    ensures reply == Registered(|old(server.users)|)
    ensures |server.users| == |old(server.users)| + 1
    ensures server.users[|old(server.users)|].email == server.emailRule(email).value
  {
    reply := server.Register(username, email, password);
  }

  /** Registering an address twice: the second request is refused with 409 and creates nothing. */
  method RegisterTwice(server: AuthServer, username: string, email: string, password: string)
    requires server.Valid() && server.RegisterInputOk(username, email, password)
    requires UsernameSchemaOk(Escape(Trim(username))) && EmailSchemaOk(server.emailRule(email).value)
    requires FindByEmail(server.users, server.emailRule(email).value).None?
    modifies server`users
  {
    var first := RegisterNewAddress(server, username, email, password);
    var second := RegisterKnownAddress(server, username, email, password, |server.users| - 1);
  }

  /**
   * A reset link works once: forgot-password stores the token, the first
   * reset-password with it succeeds, and the same request afterwards is
   * refused as an invalid link.
   */
  method ResetLinkIsSingleUse(server: AuthServer, email: string, newToken: string, env: Option<string>,
                              now: int, newPassword: string)
    requires server.Valid() && RandomHex64(newToken) && StrongPassword(newPassword)
    requires server.emailRule(email).Some? && FindByEmail(server.users, server.emailRule(email).value).Some?
    requires forall j :: 0 <= j < |server.users| ==> server.users[j].resetToken != Some(newToken)
    requires ResetExpiryMs(env) > 0
    modifies server`users
  {
    var i := FindByEmail(server.users, server.emailRule(email).value).value;
    var requested := server.ForgotPassword(email, now, newToken, env);
    assert requested == ResetRequested;
    assert ResetMatches(server.users[i], newToken, now);
    assert forall j :: 0 <= j < |server.users| && j != i ==> !ResetMatches(server.users[j], newToken, now);
    GeneratedTokenAccepted(newToken);
    var first := server.ResetPassword(newToken, newPassword, now);
    assert first == PasswordReset;
    assert server.users[i].password == newPassword;
    var second := server.ResetPassword(newToken, newPassword, now);
    assert second == Failed(InvalidResetToken);
  }
}
