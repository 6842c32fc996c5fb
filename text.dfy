/**
 * Character classes and string operations shared by the server routes and the
 * browser script: the `\s` class of ECMAScript regular expressions, `trim`,
 * ASCII `toLowerCase`, `split` on one character, `indexOf` and the first-match
 * form of `replace`, and the password-strength and e-mail rules that both
 * sides check.
 */
module Text {
  import opened Wrappers

  /** ECMAScript WhiteSpace and LineTerminator code points: what `\s` matches and what `trim` strips. */
  predicate IsSpace(c: char) {
    || c == ' ' || c == '\t' || c == '\n' || c == '\r' || c == '\U{000B}' || c == '\U{000C}'
    || c == '\U{00A0}' || c == '\U{1680}' || ('\U{2000}' <= c <= '\U{200A}')
    || c == '\U{2028}' || c == '\U{2029}' || c == '\U{202F}' || c == '\U{205F}'
    || c == '\U{3000}' || c == '\U{FEFF}'
  }

  predicate IsUpper(c: char) { 'A' <= c <= 'Z' }
  predicate IsLower(c: char) { 'a' <= c <= 'z' }
  /** `\d` without the `u` flag: ASCII digits only. */
  predicate IsDigit(c: char) { '0' <= c <= '9' }
  predicate IsAlnum(c: char) { IsUpper(c) || IsLower(c) || IsDigit(c) }

  /** `/[A-Z]/.test(s)` */
  predicate HasUpper(s: string) { exists i :: 0 <= i < |s| && IsUpper(s[i]) }
  /** `/[a-z]/.test(s)` */
  predicate HasLower(s: string) { exists i :: 0 <= i < |s| && IsLower(s[i]) }
  /** `/\d/.test(s)` */
  predicate HasDigit(s: string) { exists i :: 0 <= i < |s| && IsDigit(s[i]) }
  /** `/[^A-Za-z0-9]/.test(s)` */
  predicate HasSymbol(s: string) { exists i :: 0 <= i < |s| && !IsAlnum(s[i]) }

  /**
   * The password rule of the site: at least 8 characters, an upper-case letter,
   * a lower-case letter and a digit. The server's `passwordRule` and inline
   * `newPassword` checks and the browser's `isPass` all state this rule.
   */
  predicate StrongPassword(p: string) {
    |p| >= 8 && HasUpper(p) && HasLower(p) && HasDigit(p)
  }

  predicate NoSpace(s: string) { forall i :: 0 <= i < |s| ==> !IsSpace(s[i]) }

  /** `toLowerCase` on one character, restricted to the ASCII letters. */
  function LowerChar(c: char): (r: char)
    ensures IsUpper(c) ==> IsLower(r) && r as int == c as int + 32
    ensures !IsUpper(c) ==> r == c
    ensures !IsUpper(r)
  {
    if IsUpper(c) then (c as int + 32) as char else c
  }

  function ToLower(s: string): (r: string)
    ensures |r| == |s|
    ensures forall i :: 0 <= i < |s| ==> r[i] == LowerChar(s[i])
    ensures forall i :: 0 <= i < |r| ==> !IsUpper(r[i])
  {
    seq(|s|, i requires 0 <= i < |s| => LowerChar(s[i]))
  }

  /** Drops leading whitespace. */
  function TrimStart(s: string): (r: string)
    ensures |r| <= |s| && r == s[|s| - |r|..]
    ensures forall i :: 0 <= i < |s| - |r| ==> IsSpace(s[i])
    ensures r == [] || !IsSpace(r[0])
    decreases |s|
  {
    if |s| > 0 && IsSpace(s[0]) then TrimStart(s[1..]) else s
  }

  /** Drops trailing whitespace. */
  function TrimEnd(s: string): (r: string)
    ensures |r| <= |s| && r == s[..|r|]
    ensures forall i :: |r| <= i < |s| ==> IsSpace(s[i])
    ensures r == [] || !IsSpace(r[|r| - 1])
    decreases |s|
  {
    if |s| > 0 && IsSpace(s[|s| - 1]) then TrimEnd(s[..|s| - 1]) else s
  }

  /** `String.prototype.trim`. */
  function Trim(s: string): (r: string)
    ensures |r| <= |s|
    ensures r == [] || (!IsSpace(r[0]) && !IsSpace(r[|r| - 1]))
    ensures r == [] <==> forall i :: 0 <= i < |s| ==> IsSpace(s[i])
    ensures NoSpace(s) ==> r == s
  {
    var t := TrimStart(s);
    var r := TrimEnd(t);
    assert t != [] ==> !IsSpace(t[|t| - |t|]);
    r
  }

  /** What `trim` leaves is a stretch of the string with only whitespace before and after it. */
  lemma TrimIsStretch(s: string)
    ensures exists i, j :: 0 <= i <= j <= |s| && Trim(s) == s[i..j] && AllSpace(s[..i]) && AllSpace(s[j..])
  {
    var t := TrimStart(s);
    var r := TrimEnd(t);
    var i := |s| - |t|;
    var j := i + |r|;
    assert t == s[i..];
    assert r == t[..|r|];
    forall k | j <= k < |s| ensures IsSpace(s[k]) {
      assert s[k] == t[k - i];
    }
    assert r == s[i..j] && AllSpace(s[..i]) && AllSpace(s[j..]);
  }

  predicate AllSpace(s: string) { forall i :: 0 <= i < |s| ==> IsSpace(s[i]) }

  lemma {:induction false} TrimStartSkips(w: string, x: string)
    requires AllSpace(w)
    ensures TrimStart(w + x) == TrimStart(x)
    decreases |w|
  {
    if w != [] {
      var wx := w + x;
      assert wx[0] == w[0] && IsSpace(wx[0]);
      assert wx[1..] == w[1..] + x;
      assert TrimStart(wx) == TrimStart(wx[1..]);
      TrimStartSkips(w[1..], x);
    } else {
      assert w + x == x;
    }
  }

  lemma {:induction false} TrimEndSkips(x: string, w: string)
    requires AllSpace(w)
    ensures TrimEnd(x + w) == TrimEnd(x)
    decreases |w|
  {
    if w != [] {
      var xw := x + w;
      assert xw[|xw| - 1] == w[|w| - 1] && xw[..|xw| - 1] == x + w[..|w| - 1];
      TrimEndSkips(x, w[..|w| - 1]);
    } else {
      assert x + w == x;
    }
  }

  lemma {:induction false} TrimIgnoresTrailing(s: string, w: string)
    requires AllSpace(w)
    ensures TrimEnd(TrimStart(s + w)) == TrimEnd(TrimStart(s))
    decreases |s|
  {
    if s == [] {
      assert s + w == w;
      assert TrimStart(w) == [];
    } else if IsSpace(s[0]) {
      assert (s + w)[0] == s[0] && (s + w)[1..] == s[1..] + w;
      TrimIgnoresTrailing(s[1..], w);
    } else {
      assert (s + w)[0] == s[0];
      TrimEndSkips(s, w);
    }
  }

  /** A trimmed string starts and ends with non-whitespace. */
  lemma TrimmedEnds(t: string)
    requires Trim(t) == t && t != []
    ensures !IsSpace(t[0]) && !IsSpace(t[|t| - 1])
  {
  }

  /** A string with no whitespace at either end is its own trim; in particular `trim` is idempotent. */
  lemma TrimKeeps(x: string)
    requires x == [] || (!IsSpace(x[0]) && !IsSpace(x[|x| - 1]))
    ensures Trim(x) == x
  {
    assert TrimStart(x) == x;
  }

  /** A string that does not start with whitespace is its own `TrimStart`. */
  lemma TrimStartStays(x: string)
    requires x == [] || !IsSpace(x[0])
    ensures TrimStart(x) == x
  {
  }

  /** Trimming twice is trimming once. */
  lemma TrimTwice(s: string)
    ensures Trim(Trim(s)) == Trim(s)
  {
    TrimKeeps(Trim(s));
  }

  /** Whitespace around a string does not change what `trim` leaves. */
  lemma TrimPadding(w1: string, s: string, w2: string)
    requires AllSpace(w1) && AllSpace(w2)
    ensures Trim(w1 + s + w2) == Trim(s)
  {
    assert w1 + s + w2 == w1 + (s + w2);
    TrimStartSkips(w1, s + w2);
    TrimIgnoresTrailing(s, w2);
  }

  /** `s.split(sep)` for a one-character separator: the pieces between separators, empty ones included. */
  function Split(s: string, sep: char): (parts: seq<string>)
    ensures |parts| >= 1
    ensures forall i :: 0 <= i < |parts| ==> sep !in parts[i]
    decreases |s|
  {
    if |s| == 0 then [""]
    else
      var rest := Split(s[1..], sep);
      if s[0] == sep then [""] + rest
      else [[s[0]] + rest[0]] + rest[1..]
  }

  /** `parts.join(sep)`, the inverse of Split. */
  function Join(parts: seq<string>, sep: char): string
    requires |parts| >= 1
    decreases |parts|
  {
    if |parts| == 1 then parts[0] else parts[0] + [sep] + Join(parts[1..], sep)
  }

  /** Joining the pieces of a split gives back the string. */
  lemma {:induction false} JoinSplit(s: string, sep: char)
    ensures Join(Split(s, sep), sep) == s
    decreases |s|
  {
    if |s| > 0 {
      var rest := Split(s[1..], sep);
      JoinSplit(s[1..], sep);
      if s[0] == sep {
        assert Join([""] + rest, sep) == "" + [sep] + Join(rest, sep);
      } else if |rest| > 1 {
        var parts := [[s[0]] + rest[0]] + rest[1..];
        assert parts[1..] == rest[1..];
        assert Join(rest, sep) == rest[0] + [sep] + Join(rest[1..], sep);
      }
    }
  }

  /** Splitting a string that starts with a separator-free piece `a`. */
  lemma {:induction false} SplitAfterPiece(a: string, t: string, sep: char)
    requires sep !in a
    ensures Split(a + t, sep) == [a + Split(t, sep)[0]] + Split(t, sep)[1..]
    decreases |a|
  {
    var rest := Split(t, sep);
    if |a| == 0 {
      assert a + t == t && a + rest[0] == rest[0];
      assert rest == [rest[0]] + rest[1..];
    } else {
      SplitAfterPiece(a[1..], t, sep);
      assert (a + t)[0] == a[0] && (a + t)[1..] == a[1..] + t;
      var inner := Split(a[1..] + t, sep);
      assert inner[0] == a[1..] + rest[0] && inner[1..] == rest[1..];
      assert [a[0]] + (a[1..] + rest[0]) == a + rest[0];
    }
  }

  /** Splitting separator-free pieces joined by the separator gives back the pieces. */
  lemma {:induction false} SplitJoin(parts: seq<string>, sep: char)
    requires |parts| >= 1
    requires forall i :: 0 <= i < |parts| ==> sep !in parts[i]
    ensures Split(Join(parts, sep), sep) == parts
    decreases |parts|
  {
    if |parts| == 1 {
      SplitAfterPiece(parts[0], "", sep);
      assert parts[0] + "" == parts[0];
    } else {
      var tail := Join(parts[1..], sep);
      SplitJoin(parts[1..], sep);
      var t := [sep] + tail;
      SplitAfterPiece(parts[0], t, sep);
      assert Join(parts, sep) == parts[0] + t;
      assert t[0] == sep && t[1..] == tail;
      assert Split(t, sep) == [""] + parts[1..];
      assert parts[0] + "" == parts[0];
      assert parts == [parts[0]] + parts[1..];
    }
  }

  /** The last piece of a split (`pop()`) is the text after the last separator, or all of `s` without one. */
  lemma {:induction false} SplitLast(s: string, sep: char)
    ensures var parts := Split(s, sep); var last := parts[|parts| - 1];
      && |last| <= |s| && last == s[|s| - |last|..]
      && (|last| < |s| ==> s[|s| - |last| - 1] == sep)
      && (|parts| == 1 ==> last == s)
      && (|parts| > 1 ==> |last| < |s|)
    decreases |s|
  {
    if |s| > 0 {
      SplitLast(s[1..], sep);
      var t := s[1..];
      var rest := Split(t, sep);
      var parts := Split(s, sep);
      var last := rest[|rest| - 1];
      assert last == t[|t| - |last|..];
      assert t[|t| - |last|..] == s[|s| - |last|..];
      if s[0] == sep {
        assert parts == [""] + rest;
        assert parts[|parts| - 1] == last;
        if |last| < |t| {
          assert t[|t| - |last| - 1] == s[|s| - |last| - 1];
        }
      } else if |rest| > 1 {
        assert parts == [[s[0]] + rest[0]] + rest[1..];
        assert parts[|parts| - 1] == last;
        assert t[|t| - |last| - 1] == s[|s| - |last| - 1];
      } else {
        assert parts == [[s[0]] + rest[0]];
        assert rest[0] == t;
        assert s == [s[0]] + t;
      }
    }
  }

  /** The last piece of a split starts after the last separator, or at the start when there is none. */
  lemma LastPiece(s: string, sep: char) returns (k: nat)
    ensures k <= |s| && (k == 0 || s[k - 1] == sep) && sep !in s[k..]
    ensures var parts := Split(s, sep); parts[|parts| - 1] == s[k..]
  {
    SplitLast(s, sep);
    var parts := Split(s, sep);
    k := |s| - |parts[|parts| - 1]|;
    assert sep !in parts[|parts| - 1];
  }

  /** `pat` occurs in `s` starting at index `i`. */
  predicate OccursAt(s: string, pat: string, i: nat) {
    i + |pat| <= |s| && s[i..i + |pat|] == pat
  }

  /** `s.indexOf(pat)`, `None` for -1. */
  function IndexOf(s: string, pat: string): (r: Option<nat>)
    ensures r.Some? ==> OccursAt(s, pat, r.value)
    ensures r.Some? ==> forall j :: 0 <= j < r.value ==> !OccursAt(s, pat, j)
    ensures r.None? ==> forall j :: 0 <= j <= |s| ==> !OccursAt(s, pat, j)
    decreases |s|
  {
    if OccursAt(s, pat, 0) then Some(0)
    else if |s| == 0 then None
    else
      var tail := IndexOf(s[1..], pat);
      assert forall j :: 1 <= j <= |s| ==> (OccursAt(s, pat, j) <==> OccursAt(s[1..], pat, j - 1)) by {
        forall j | 1 <= j <= |s| ensures OccursAt(s, pat, j) <==> OccursAt(s[1..], pat, j - 1) {
          if j + |pat| <= |s| {
            assert s[1..][j - 1..j - 1 + |pat|] == s[j..j + |pat|];
          }
        }
      }
      match tail
      case Some(i) => Some(i + 1)
      case None => None
  }

  /** `s.replace(pat, rep)` with a string pattern: only the first occurrence is replaced. */
  function ReplaceFirst(s: string, pat: string, rep: string): (r: string)
    ensures forall i :: 0 <= i < |r| ==> r[i] in s || r[i] in rep
  {
    match IndexOf(s, pat)
    case Some(i) => s[..i] + rep + s[i + |pat|..]
    case None => s
  }

  /** Without an occurrence of the pattern the string is unchanged. */
  lemma ReplaceFirstAbsent(s: string, pat: string, rep: string)
    requires forall j :: 0 <= j <= |s| ==> !OccursAt(s, pat, j)
    ensures ReplaceFirst(s, pat, rep) == s
  {
  }

  /** The first occurrence of the pattern, and only it, is replaced. */
  lemma ReplaceFirstAt(s: string, pat: string, rep: string, i: nat)
    requires OccursAt(s, pat, i) && forall j :: 0 <= j < i ==> !OccursAt(s, pat, j)
    ensures ReplaceFirst(s, pat, rep) == s[..i] + rep + s[i + |pat|..]
  {
  }

  /** `[^\s@]` */
  predicate EmailChar(c: char) {
    !IsSpace(c) && c != '@'
  }

  /** `[^\s@]+` */
  predicate EmailPart(s: string) {
    |s| >= 1 && forall i :: 0 <= i < |s| ==> EmailChar(s[i])
  }

  /**
   * The e-mail rule `^[^\s@]+@[^\s@]+\.[^\s@]+$`, shared by the browser's
   * `isEmail` and the `match` of the user model's `email` field: one '@'
   * after at least one character, a '.' with at least one character on each
   * side somewhere after it, and no whitespace or second '@'.
   */
  predicate IsEmail(e: string) {
    exists a, d ::
      && 0 < a && a + 1 < d < |e| - 1
      && e[a] == '@' && e[d] == '.'
      && forall i :: 0 <= i < |e| && i != a ==> EmailChar(e[i])
  }

  /** The language of the regular expression `^[^\s@]+@[^\s@]+\.[^\s@]+$`. */
  ghost predicate MatchesEmailPattern(e: string) {
    exists local, host, tld ::
      EmailPart(local) && EmailPart(host) && EmailPart(tld) && e == local + "@" + host + "." + tld
  }

  /** A stretch of an address that avoids position `a` is made of pattern characters. */
  lemma StretchIsPart(e: string, a: nat, lo: nat, hi: nat)
    requires lo < hi <= |e| && (a < lo || hi <= a)
    requires forall i :: 0 <= i < |e| && i != a ==> EmailChar(e[i])
    ensures EmailPart(e[lo..hi])
  {
    forall i | 0 <= i < hi - lo ensures EmailChar(e[lo..hi][i]) {
      assert e[lo..hi][i] == e[lo + i];
    }
  }

  /** An address `isEmail` accepts splits into the three parts of the pattern. */
  lemma EmailSplits(e: string)
    requires IsEmail(e)
    ensures MatchesEmailPattern(e)
  {
    var a, d :| && 0 < a && a + 1 < d < |e| - 1 && e[a] == '@' && e[d] == '.'
                && forall i :: 0 <= i < |e| && i != a ==> EmailChar(e[i]);
    var local, host, tld := e[..a], e[a + 1..d], e[d + 1..];
    StretchIsPart(e, a, 0, a);
    StretchIsPart(e, a, a + 1, d);
    StretchIsPart(e, a, d + 1, |e|);
    Decompose(e, a, d);
    assert EmailPart(local) && EmailPart(host) && EmailPart(tld) && e == local + "@" + host + "." + tld;
  }

  /** Cutting an address at its '@' and at a later '.'. */
  lemma Decompose(e: string, a: nat, d: nat)
    requires a < d < |e| && e[a] == '@' && e[d] == '.'
    ensures e == e[..a] + "@" + e[a + 1..d] + "." + e[d + 1..]
  {
    assert e[a..d] == "@" + e[a + 1..d];
    assert e[d..] == "." + e[d + 1..];
    assert e == e[..a] + e[a..d] + e[d..];
  }

  /** A string the pattern matches passes `isEmail`. */
  lemma PatternIsEmail(local: string, host: string, tld: string)
    requires EmailPart(local) && EmailPart(host) && EmailPart(tld)
    ensures IsEmail(local + "@" + host + "." + tld)
  {
    var e := local + "@" + host + "." + tld;
    var a, d := |local|, |local| + 1 + |host|;
    assert e[a] == '@' && e[d] == '.';
    forall i | 0 <= i < |e| && i != a ensures EmailChar(e[i]) {
      if i < a {
        assert e[i] == local[i];
      } else if i < d {
        assert e[i] == host[i - a - 1];
      } else if i > d {
        assert e[i] == tld[i - d - 1];
      }
    }
  }

  /** `isEmail` accepts exactly the strings its regular expression matches. */
  lemma IsEmailIsPattern(e: string)
    ensures IsEmail(e) <==> MatchesEmailPattern(e)
  {
    if IsEmail(e) {
      EmailSplits(e);
    }
    if MatchesEmailPattern(e) {
      var local, host, tld :|
        EmailPart(local) && EmailPart(host) && EmailPart(tld) && e == local + "@" + host + "." + tld;
      PatternIsEmail(local, host, tld);
    }
  }
}
