/**
 * The browser side of the site (`script.js`) with the page and its storage
 * taken away: password-strength scoring and its display table, the e-mail
 * and password checks of the login page, the translation lookup, the
 * offline user registry that the login page falls back on when the API
 * cannot be reached, the API helper's one retry after a refresh, and the
 * page name reported by the visit tracker.
 */
module Client {
  import opened Wrappers
  import opened Text
  import Contact

  // ---------------------------------------------------------------------
  // Password strength
  // ---------------------------------------------------------------------

  /** The six tests of `calcStrength`, in the order it applies them. */
  function Criteria(p: string): seq<bool> {
    [|p| >= 8, |p| >= 12, HasUpper(p), HasLower(p), HasDigit(p), HasSymbol(p)]
  }

  function CountTrue(bs: seq<bool>): (n: nat)
    ensures n <= |bs|
  {
    if bs == [] then 0 else (if bs[0] then 1 else 0) + CountTrue(bs[1..])
  }

  /** The strength of a password: one point for each test it passes. */
  function StrengthScore(p: string): nat {
    CountTrue(Criteria(p))
  }

  function Point(b: bool): nat { if b then 1 else 0 }

  /** The score, criterion by criterion. */
  lemma ScoreByCriterion(p: string)
    ensures StrengthScore(p)
         == Point(|p| >= 8) + Point(|p| >= 12) + Point(HasUpper(p))
          + Point(HasLower(p)) + Point(HasDigit(p)) + Point(HasSymbol(p))
  {
    var c := Criteria(p);
    assert c[5..][1..] == [];
    assert CountTrue(c[5..]) == Point(c[5]);
    assert CountTrue(c[4..]) == Point(c[4]) + CountTrue(c[5..]);
    assert CountTrue(c[3..]) == Point(c[3]) + CountTrue(c[4..]);
    assert CountTrue(c[2..]) == Point(c[2]) + CountTrue(c[3..]);
    assert CountTrue(c[1..]) == Point(c[1]) + CountTrue(c[2..]);
    assert CountTrue(c) == Point(c[0]) + CountTrue(c[1..]);
  }

  /** `calcStrength`: a counter raised once for each test the password passes. */
  method CalcStrength(p: string) returns (s: nat)
    ensures s == StrengthScore(p)
    ensures s <= 6
  {
    s := 0;
    if |p| >= 8 { s := s + 1; }
    if |p| >= 12 { s := s + 1; }
    if HasUpper(p) { s := s + 1; }
    if HasLower(p) { s := s + 1; }
    if HasDigit(p) { s := s + 1; }
    if HasSymbol(p) { s := s + 1; }
    ScoreByCriterion(p);
  }

  /** A password that meets the site's rule scores at least 4. */
  lemma StrongPasswordScore(p: string)
    requires StrongPassword(p)
    ensures StrengthScore(p) >= 4
  {
    ScoreByCriterion(p);
  }

  /** Full marks exactly for a password of 12 or more characters with all four kinds of character. */
  lemma FullScore(p: string)
    ensures StrengthScore(p) == 6 <==> |p| >= 12 && HasUpper(p) && HasLower(p) && HasDigit(p) && HasSymbol(p)
  {
    ScoreByCriterion(p);
  }

  /** A row of the strength display: bar width in percent, bar colour, label key. */
  datatype Band = Band(pct: nat, color: string, key: string)

  const Weak := Band(25, "#e8001a", "str.weak")
  const Fair := Band(50, "#f07800", "str.fair")
  const Good := Band(75, "#d4c000", "str.good")
  const Strong := Band(100, "#18c84a", "str.strong")

  /** The table of `NV._renderStrength`, indexed by `Math.min(sc, 6)`. */
  function StrengthBand(sc: nat): (b: Band)
    ensures b.key == "" <==> sc == 0
    ensures b.pct == 0 <==> sc == 0
    ensures 1 <= sc <= 2 ==> b == Weak
    ensures sc == 3 ==> b == Fair
    ensures sc == 4 ==> b == Good
    ensures sc >= 5 ==> b == Strong
  {
    var table := map[
      0 := Band(0, "transparent", ""),
      1 := Weak, 2 := Weak, 3 := Fair, 4 := Good, 5 := Strong, 6 := Strong];
    table[if sc < 6 then sc else 6]
  }

  /** A higher score never shows a shorter bar. */
  lemma BandMonotone(a: nat, b: nat)
    requires a <= b
    ensures StrengthBand(a).pct <= StrengthBand(b).pct
  {
  }

  /** A password that meets the site's rule shows at least "good". */
  lemma StrongPasswordBand(p: string)
    requires StrongPassword(p)
    ensures StrengthBand(StrengthScore(p)).pct >= 75
    ensures StrengthBand(StrengthScore(p)).key in {"str.good", "str.strong"}
  {
    StrongPasswordScore(p);
  }

  // ---------------------------------------------------------------------
  // Form checks
  // ---------------------------------------------------------------------

  /** `isPass`: the site's password rule. */
  predicate IsPass(p: string) {
    StrongPassword(p)
  }

  // ---------------------------------------------------------------------
  // Translation
  // ---------------------------------------------------------------------

  /** `localStorage.getItem('nv_lang') || 'en'`. */
  function CurrentLang(stored: Option<string>): (lang: string)
    ensures lang != ""
    ensures stored.Some? && stored.value != "" ==> lang == stored.value
    ensures stored.None? || stored.value == "" ==> lang == "en"
  {
    if stored.Some? && stored.value != "" then stored.value else "en"
  }

  /** `table[k]`, with a missing entry read as the falsy empty string. */
  function Entry(table: map<string, string>, k: string): string {
    if k in table then table[k] else ""
  }

  /**
   * `NV.tr(k)` over the translation tables `T` (language to key to text):
   * the current language's entry when it is non-empty, else the English
   * one when that is non-empty, else the key itself.
   */
  function Tr(T: map<string, map<string, string>>, lang: string, k: string): (r: string)
    requires "en" in T
    ensures lang in T && Entry(T[lang], k) != "" ==> r == T[lang][k]
    ensures (lang !in T || Entry(T[lang], k) == "") && Entry(T["en"], k) != "" ==> r == T["en"][k]
    ensures r == k || (lang in T && k in T[lang] && r == T[lang][k]) || (k in T["en"] && r == T["en"][k])
    ensures k != "" ==> r != ""
  {
    if lang in T && Entry(T[lang], k) != "" then T[lang][k]
    else if Entry(T["en"], k) != "" then T["en"][k]
    else k
  }

  /** The text of the strength label: empty for score 0, else the translation of the band's key. */
  function StrengthLabel(T: map<string, map<string, string>>, lang: string, sc: nat): (text: string)
    requires "en" in T
    ensures text == "" <==> sc == 0
  {
    var key := StrengthBand(sc).key;
    if key != "" then Tr(T, lang, key) else ""
  }

  // ---------------------------------------------------------------------
  // Offline user registry (the `nv_users` array in localStorage)
  // ---------------------------------------------------------------------

  datatype StoredUser = StoredUser(name: string, email: string, password: string)

  /** `us.find(u => u.email === email)`, as an index. */
  method FindByEmail(us: seq<StoredUser>, email: string) returns (r: Option<nat>)
    ensures r.Some? ==> r.value < |us| && us[r.value].email == email
    ensures r.Some? ==> forall j :: 0 <= j < r.value ==> us[j].email != email
    ensures r.None? <==> forall j :: 0 <= j < |us| ==> us[j].email != email
  {
    var i := 0;
    while i < |us|
      invariant 0 <= i <= |us|
      invariant forall j :: 0 <= j < i ==> us[j].email != email
    {
      if us[i].email == email {
        return Some(i);
      }
      i := i + 1;
    }
    return None;
  }

  /** `NV.users.find(u => u.email === email && u.password === pass)`. */
  method FindCredentials(us: seq<StoredUser>, email: string, pass: string) returns (r: Option<StoredUser>)
    ensures r.Some? <==> exists j :: 0 <= j < |us| && us[j].email == email && us[j].password == pass
    ensures r.Some? ==> r.value.email == email && r.value.password == pass && r.value in us
    // the first such user
    ensures r.Some? ==> exists j :: (0 <= j < |us| && us[j] == r.value &&
              forall k :: 0 <= k < j ==> !(us[k].email == email && us[k].password == pass))
  {
    var i := 0;
    while i < |us|
      invariant 0 <= i <= |us|
      invariant forall j :: 0 <= j < i ==> !(us[j].email == email && us[j].password == pass)
    {
      if us[i].email == email && us[i].password == pass {
        assert us[i] == us[i];
        return Some(us[i]);
      }
      i := i + 1;
    }
    return None;
  }

  /** `email.trim().toLowerCase()` of the login page's forms. */
  function FormEmail(raw: string): (email: string)
    ensures forall i :: 0 <= i < |email| ==> !IsUpper(email[i])
  {
    ToLower(Trim(raw))
  }

  /** The checks of the register form, on the trimmed name, the normalised e-mail and the raw passwords. */
  predicate RegisterFormOk(name: string, email: string, pass: string, confirm: string, agreed: bool) {
    && name != ""
    && email != "" && IsEmail(email)
    && pass != "" && IsPass(pass)
    && pass == confirm
    && agreed
  }

  /** How the API request of a form ended: answered with success, answered with an error message, or thrown. */
  datatype ApiOutcome =
    | ApiOk(username: Option<string>)
    | ApiRejected(message: string)
    | NetworkError

  datatype RegisterResult =
    | RegisterFormInvalid
    | Created
    | EmailTakenShown
    | RegisterFailed(message: string)

  /** Who is signed in, and whether in localStorage ("remember me") or sessionStorage. */
  datatype AuthData = AuthData(name: string, email: string)

  datatype LoginResult =
    | LoginFormInvalid
    | SignedIn(auth: AuthData, remembered: bool)
    | CredentialsRejected

  class OfflineRegistry {
    /** The parsed `nv_users` array (an absent or empty entry reads as []). */
    var users: seq<StoredUser>

    constructor (stored: seq<StoredUser>)
      ensures users == stored
    {
      users := stored;
    }

    /** The register form's submit handler; `api` is how `NVApi.register` ended. */
    method SubmitRegister(rawName: string, rawEmail: string, pass: string, confirm: string, agreed: bool, api: ApiOutcome)
      returns (result: RegisterResult)
      modifies this
      ensures var name, email := Trim(rawName), FormEmail(rawEmail);
        && (!RegisterFormOk(name, email, pass, confirm, agreed) ==> result == RegisterFormInvalid && users == old(users))
        && (api.NetworkError? && RegisterFormOk(name, email, pass, confirm, agreed) ==>
              // taken exactly when a stored user has the same e-mail
              && (result == EmailTakenShown <==> exists j :: 0 <= j < |old(users)| && old(users)[j].email == email)
              && (result == Created <==> result != EmailTakenShown)
              // otherwise exactly one user is appended
              && users == if result == Created then old(users) + [StoredUser(name, email, pass)] else old(users))
        && (!api.NetworkError? ==> users == old(users))
        && (api.ApiOk? && RegisterFormOk(name, email, pass, confirm, agreed) ==> result == Created)
        && (api.ApiRejected? && RegisterFormOk(name, email, pass, confirm, agreed) ==>
              result == if IndexOf(ToLower(api.message), "email").Some? then EmailTakenShown
                        else RegisterFailed(if api.message == "" then "Registration failed" else api.message))
    {
      var name, email := Trim(rawName), FormEmail(rawEmail);
      if !RegisterFormOk(name, email, pass, confirm, agreed) {
        return RegisterFormInvalid;
      }
      match api
      case ApiOk(_) =>
        result := Created;
      case ApiRejected(msg) =>
        if IndexOf(ToLower(msg), "email").Some? {
          result := EmailTakenShown;
        } else {
          result := RegisterFailed(if msg == "" then "Registration failed" else msg);
        }
      case NetworkError =>
        var us := users;
        var hit := FindByEmail(us, email);
        if hit.Some? {
          return EmailTakenShown;
        }
        us := us + [StoredUser(name, email, pass)];
        users := us;
        result := Created;
    }

    /** The login form's submit handler; `api` is how `NVApi.login` ended. */
    method SubmitLogin(rawEmail: string, pass: string, remember: bool, api: ApiOutcome)
      returns (result: LoginResult)
      ensures var email := FormEmail(rawEmail);
        && (result == LoginFormInvalid <==> !(email != "" && IsEmail(email) && pass != ""))
        && (result.SignedIn? ==> result.remembered == remember && result.auth.email == email)
        && (api.ApiRejected? && result != LoginFormInvalid ==> result == CredentialsRejected)
        && (api.ApiOk? && result != LoginFormInvalid ==>
              result.SignedIn? &&
              result.auth.name == if api.username.Some? && api.username.value != "" then api.username.value
                                  else Split(email, '@')[0])
        // offline: signed in exactly when a stored user has this e-mail and password
        && (api.NetworkError? && result != LoginFormInvalid ==>
              && (result.SignedIn? <==> exists j :: 0 <= j < |users| && users[j].email == email && users[j].password == pass)
              // as the first stored user with them, under that user's name
              && (result.SignedIn? ==> exists j :: (0 <= j < |users| && users[j].email == email && users[j].password == pass
                    && (forall k :: 0 <= k < j ==> !(users[k].email == email && users[k].password == pass))
                    && result.auth == AuthData(users[j].name, email))))
    {
      var email := FormEmail(rawEmail);
      if !(email != "" && IsEmail(email) && pass != "") {
        return LoginFormInvalid;
      }
      match api
      case ApiOk(username) =>
        var name := if username.Some? && username.value != "" then username.value else Split(email, '@')[0];
        result := SignedIn(AuthData(name, email), remember);
      case ApiRejected(_) =>
        result := CredentialsRejected;
      case NetworkError =>
        var user := FindCredentials(users, email, pass);
        if user.None? {
          return CredentialsRejected;
        }
        result := SignedIn(AuthData(user.value.name, user.value.email), remember);
    }
  }

  // ---------------------------------------------------------------------
  // API helper
  // ---------------------------------------------------------------------

  /** A response: its status and its JSON body (`None` when the body is not JSON). */
  datatype HttpResponse = HttpResponse(status: int, body: Option<map<string, string>>)

  /** `fetch`'s `res.ok`. */
  predicate IsOk(status: int) {
    200 <= status <= 299
  }

  /** What `NVApi.call` resolves to: `{ ok, data }`, with `{}` for a body that is not JSON. */
  datatype CallResult = CallResult(ok: bool, data: map<string, string>)

  /** How the promise of `NVApi.call` settles: resolved with a result, or rejected. */
  datatype CallEnd = Resolved(result: CallResult) | Thrown

  function Outcome(res: HttpResponse): CallResult {
    CallResult(IsOk(res.status), res.body.GetOr(map[]))
  }

  /** The `Authorization` header for a stored token: `Bearer <token>` (section 2.1 of RFC 6750), none without a token. */
  function AuthHeader(token: Option<string>): (h: Option<string>)
    ensures h.Some? <==> token.Some? && token.value != ""
    ensures h.Some? ==> h.value == "Bearer " + token.value
  {
    if token.Some? && token.value != "" then Some("Bearer " + token.value) else None
  }

  /** `rd.token` of a refresh response, with a missing field read as the falsy "". */
  function NewToken(refresh: HttpResponse): string
    requires refresh.body.Some?
  {
    Entry(refresh.body.value, "token")
  }

  /** A refresh that lets the request be re-issued: answered OK with a JSON body holding a non-empty token. */
  predicate RefreshGranted(refresh: Option<HttpResponse>) {
    refresh.Some? && IsOk(refresh.value.status) && refresh.value.body.Some? && NewToken(refresh.value) != ""
  }

  /**
   * `NVApi.call`. `stored` is the `nv_token` entry before the call, `first` the
   * response to the request, `refresh` the response of `/auth/refresh` (asked
   * only after a 401) and `second` the response to the re-issued request;
   * `None` stands for a `fetch` that rejected (the network could not be
   * reached). `sent` lists the `Authorization` header of every request to the
   * endpoint, `storedAfter` is the `nv_token` entry afterwards.
   */
  method Call(stored: Option<string>, first: Option<HttpResponse>, refresh: Option<HttpResponse>, second: Option<HttpResponse>)
    returns (result: CallEnd, sent: seq<Option<string>>, refreshAsked: bool, storedAfter: Option<string>)
    ensures 1 <= |sent| <= 2 && sent[0] == AuthHeader(stored)
    ensures refreshAsked <==> first.Some? && first.value.status == 401
    // re-issued exactly once, and only after a 401 and a granted refresh
    ensures |sent| == 2 <==> refreshAsked && RefreshGranted(refresh)
    ensures |sent| == 2 ==> sent[1] == Some("Bearer " + NewToken(refresh.value)) && storedAfter == Some(NewToken(refresh.value))
    ensures |sent| == 1 ==> storedAfter == stored
    // the call rejects when a fetch does, or when an OK refresh has a body that is not JSON
    ensures result.Thrown? <==>
              || first.None?
              || (refreshAsked && (refresh.None? || (IsOk(refresh.value.status) && refresh.value.body.None?)))
              || (|sent| == 2 && second.None?)
    ensures |sent| == 1 && first.Some? && result.Resolved? ==> result.result == Outcome(first.value)
    ensures |sent| == 2 && second.Some? ==> result == Resolved(Outcome(second.value))
  {
    var header := AuthHeader(stored);
    sent := [header];
    storedAfter := stored;
    refreshAsked := false;
    if first.None? {
      return Thrown, sent, refreshAsked, storedAfter;
    }
    var res := first.value;
    if res.status == 401 {
      refreshAsked := true;
      if refresh.None? {
        return Thrown, sent, refreshAsked, storedAfter;
      }
      var rr := refresh.value;
      if IsOk(rr.status) {
        if rr.body.None? {
          // `rr.json()` rejects
          return Thrown, sent, refreshAsked, storedAfter;
        }
        var token := NewToken(rr);
        if token != "" {
          storedAfter := Some(token);
          header := Some("Bearer " + token);
          sent := sent + [header];
          if second.None? {
            return Thrown, sent, refreshAsked, storedAfter;
          }
          res := second.value;
        }
      }
    }
    result := Resolved(Outcome(res));
  }

  // ---------------------------------------------------------------------
  // Visit tracker
  // ---------------------------------------------------------------------

  /** `location.pathname.split('/').pop().replace('.html', '') || 'home'`. */
  function PageName(pathname: string): (name: string)
    ensures name != ""
    ensures '/' !in name
  {
    var parts := Split(pathname, '/');
    var file := parts[|parts| - 1];
    var base := ReplaceFirst(file, ".html", "");
    if base == "" then "home" else base
  }

  /** The root path is reported as "home". */
  lemma RootIsHome()
    ensures PageName("/") == "home"
  {
    SplitJoin(["", ""], '/');
    assert Join(["", ""], '/') == "/";
    assert IndexOf("", ".html") == None;
  }

  /**
   * The name is taken from the text after the last '/' (all of the path when
   * it has none): its first ".html" removed, and "home" when nothing is left.
   */
  lemma PageNameIsLastSegment(pathname: string)
    ensures exists k :: 0 <= k <= |pathname| && (k == 0 || pathname[k - 1] == '/') && '/' !in pathname[k..] &&
              var base := ReplaceFirst(pathname[k..], ".html", "");
              PageName(pathname) == if base == "" then "home" else base
  {
    var k := LastPiece(pathname, '/');
    PageNameOf(pathname, pathname[k..]);
    assert 0 <= k <= |pathname| && (k == 0 || pathname[k - 1] == '/') && '/' !in pathname[k..];
  }

  /** The name is read off the last piece of the path. */
  lemma PageNameOf(pathname: string, file: string)
    requires var parts := Split(pathname, '/'); parts[|parts| - 1] == file
    ensures var base := ReplaceFirst(file, ".html", ""); PageName(pathname) == if base == "" then "home" else base
  {
    var parts := Split(pathname, '/');
    var base := ReplaceFirst(file, ".html", "");
    assert PageName(pathname) == if base == "" then "home" else base;
  }

  /** A page `<dir>/<name>.html` is reported as `<name>` when the name has no '/' and no '.'. */
  lemma PageNameInDirectory(dir: string, name: string)
    requires name != "" && '/' !in name && '.' !in name
    ensures PageName(dir + "/" + name + ".html") == name
  {
    var file := name + ".html";
    JoinFile(dir + "/", name, ".html");
    HtmlFileNoSlash(name);
    LastSegment(dir, file);
    HtmlRemoved(name);
    PageNameOf(dir + "/" + file, file);
  }

  lemma JoinFile(a: string, b: string, c: string)
    ensures a + b + c == a + (b + c)
  {
  }

  lemma HtmlFileNoSlash(name: string)
    requires '/' !in name
    ensures '/' !in name + ".html"
  {
    var file := name + ".html";
    forall i | 0 <= i < |file| ensures file[i] != '/' {
      if i < |name| { assert file[i] == name[i]; }
    }
  }

  /** Removing the first ".html" of `<name>.html` gives the name, when the name has no '.'. */
  lemma HtmlRemoved(name: string)
    requires '.' !in name
    ensures ReplaceFirst(name + ".html", ".html", "") == name
  {
    var file := name + ".html";
    assert OccursAt(file, ".html", |name|) by {
      assert file[|name|..|name| + 5] == ".html";
    }
    forall j | 0 <= j < |name| ensures !OccursAt(file, ".html", j) {
      assert file[j] == name[j];
    }
    ReplaceFirstAt(file, ".html", "", |name|);
    assert file[..|name|] == name && file[|name| + 5..] == "";
  }

  /** The last piece of `<dir>/<file>` is the file, when the file has no '/'. */
  lemma LastSegment(dir: string, file: string)
    requires '/' !in file
    ensures var parts := Split(dir + "/" + file, '/'); parts[|parts| - 1] == file
  {
    var s := dir + "/" + file;
    SplitLast(s, '/');
    var parts := Split(s, '/');
    var last := parts[|parts| - 1];
    assert '/' !in last;
    assert s[|s| - |file| - 1] == '/';
    assert last == s[|s| - |file|..] == file;
  }

  /** The name the tracker sends for `/<name>.html` is the key the server counts, when the name is already a key. */
  lemma TrackedPageKey(name: string)
    requires name != ""
    requires forall i :: 0 <= i < |name| ==> Contact.IsPageChar(name[i])
    ensures Contact.SanitizePage(Trim(PageName("/" + name + ".html"))) == name
  {
    assert '/' !in name && '.' !in name by {
      forall i | 0 <= i < |name| ensures name[i] != '/' && name[i] != '.' {
        assert Contact.IsPageChar(name[i]);
      }
    }
    PageNameInDirectory("", name);
    assert "" + "/" + name + ".html" == "/" + name + ".html";
    assert NoSpace(name) by {
      forall i | 0 <= i < |name| ensures !IsSpace(name[i]) {
        assert Contact.IsPageChar(name[i]);
      }
    }
    assert ToLower(name) == name;
  }
}
