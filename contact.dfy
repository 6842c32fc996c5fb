/**
 * The contact and analytics routes under `/api/contact`: the validation rules
 * of a contact-form submission, the page-key sanitiser, and the in-memory
 * visit counter that `/visit` increments and `/stats` totals.
 */
module Contact {
  import opened Text

  /** `[a-z0-9_-]`: the characters a page key keeps. */
  predicate IsPageChar(c: char) {
    IsLower(c) || IsDigit(c) || c == '_' || c == '-'
  }

  /** `.replace(/[^a-z0-9_-]/g, '')`: every other character is removed, the rest keep their order. */
  function KeepPageChars(s: string): (r: string)
    ensures |r| <= |s|
    ensures forall i :: 0 <= i < |r| ==> IsPageChar(r[i])
    ensures (forall i :: 0 <= i < |s| ==> IsPageChar(s[i])) ==> r == s
    ensures (forall i :: 0 <= i < |s| ==> !IsPageChar(s[i])) ==> r == []
    decreases |s|
  {
    if s == [] then []
    else
      var rest := KeepPageChars(s[1..]);
      if IsPageChar(s[0]) then [s[0]] + rest else rest
  }

  /** The page key of `/visit`: the lower-cased page name with every character outside `[a-z0-9_-]` removed. */
  function SanitizePage(page: string): (key: string)
    ensures |key| <= |page|
    ensures forall i :: 0 <= i < |key| ==> IsPageChar(key[i])
    ensures (forall i :: 0 <= i < |page| ==> IsPageChar(page[i])) ==> key == page
  {
    assert (forall i :: 0 <= i < |page| ==> IsPageChar(page[i])) ==> ToLower(page) == page;
    KeepPageChars(ToLower(page))
  }

  /** The filter works character by character: filtering a concatenation filters each part. */
  lemma {:induction false} KeepPageCharsAppend(a: string, b: string)
    ensures KeepPageChars(a + b) == KeepPageChars(a) + KeepPageChars(b)
    decreases |a|
  {
    if a == [] {
      assert a + b == b;
    } else {
      assert (a + b)[0] == a[0] && (a + b)[1..] == a[1..] + b;
      KeepPageCharsAppend(a[1..], b);
    }
  }

  /** One character is kept exactly when it is in `[a-z0-9_-]`. */
  lemma KeepPageCharsOne(c: char)
    ensures KeepPageChars([c]) == if IsPageChar(c) then [c] else []
  {
    assert [c][1..] == [];
  }

  /** Sanitising a concatenation sanitises each part. */
  lemma SanitizeAppend(a: string, b: string)
    ensures SanitizePage(a + b) == SanitizePage(a) + SanitizePage(b)
  {
    assert ToLower(a + b) == ToLower(a) + ToLower(b);
    KeepPageCharsAppend(ToLower(a), ToLower(b));
  }

  /** One character of a page name becomes its lower-case form when that is a key character, else nothing. */
  lemma SanitizeOne(c: char)
    ensures SanitizePage([c]) == if IsPageChar(LowerChar(c)) then [LowerChar(c)] else []
  {
    assert ToLower([c]) == [LowerChar(c)];
    KeepPageCharsOne(LowerChar(c));
  }

  /** A sanitised key is its own key: sanitising twice is sanitising once. */
  lemma SanitizeIdempotent(page: string)
    ensures SanitizePage(SanitizePage(page)) == SanitizePage(page)
  {
    var key := SanitizePage(page);
    assert ToLower(key) == key;
  }

  /** `visitCounts[k] || 0`. */
  function CountOf(counts: map<string, nat>, k: string): nat {
    if k in counts then counts[k] else 0
  }

  /** `Object.values(visitCounts).reduce((a, b) => a + b, 0)`, the values taken in the order of `keys`. */
  function SumCounts(keys: seq<string>, counts: map<string, nat>): nat
    decreases |keys|
  {
    if keys == [] then 0
    else SumCounts(keys[..|keys| - 1], counts) + CountOf(counts, keys[|keys| - 1])
  }

  predicate Distinct(keys: seq<string>) {
    forall i, j :: 0 <= i < j < |keys| ==> keys[i] != keys[j]
  }

  /** Changing the count of a key that is not summed leaves the sum alone. */
  lemma {:induction false} SumIgnoresOthers(keys: seq<string>, counts: map<string, nat>, k: string, v: nat)
    requires k !in keys
    ensures SumCounts(keys, counts[k := v]) == SumCounts(keys, counts)
    decreases |keys|
  {
    if keys != [] {
      SumIgnoresOthers(keys[..|keys| - 1], counts, k, v);
    }
  }

  /** Raising one summed count by one raises the sum by one. */
  lemma {:induction false} SumBump(keys: seq<string>, counts: map<string, nat>, k: string)
    requires Distinct(keys) && k in keys
    ensures SumCounts(keys, counts[k := CountOf(counts, k) + 1]) == SumCounts(keys, counts) + 1
    decreases |keys|
  {
    var init, last := keys[..|keys| - 1], keys[|keys| - 1];
    var bumped := counts[k := CountOf(counts, k) + 1];
    if last == k {
      assert k !in init by {
        forall i | 0 <= i < |init| ensures init[i] != k {
          assert keys[i] != keys[|keys| - 1];
        }
      }
      SumIgnoresOthers(init, counts, k, CountOf(counts, k) + 1);
    } else {
      assert k in init by {
        var i :| 0 <= i < |keys| && keys[i] == k;
        assert i < |keys| - 1;
        assert init[i] == k;
      }
      SumBump(init, counts, k);
    }
  }

  /** The key order and counts after one visit of `key`: still distinct keys naming exactly the counted pages, and one more in total. */
  lemma RecordVisit(keys: seq<string>, counts: map<string, nat>, key: string)
    requires Distinct(keys) && (forall k :: k in counts <==> k in keys)
    ensures var counts' := counts[key := CountOf(counts, key) + 1];
            var keys' := if key in counts then keys else keys + [key];
            && Distinct(keys') && (forall k :: k in counts' <==> k in keys')
            && SumCounts(keys', counts') == SumCounts(keys, counts) + 1
  {
    var n := CountOf(counts, key) + 1;
    if key in counts {
      SumBump(keys, counts, key);
      assert forall k :: k in counts[key := n] <==> k in counts;
    } else {
      assert key !in keys;
      AppendKey(keys, counts, key, n);
      assert forall k :: k in keys + [key] <==> k in keys || k == key;
    }
  }

  /** Appending a key that has no count yet, with count `n`: still distinct, and the sum grows by `n`. */
  lemma AppendKey(keys: seq<string>, counts: map<string, nat>, key: string, n: nat)
    requires Distinct(keys) && key !in keys
    ensures Distinct(keys + [key])
    ensures SumCounts(keys + [key], counts[key := n]) == SumCounts(keys, counts) + n
  {
    var keys' := keys + [key];
    SumIgnoresOthers(keys, counts, key, n);
    assert keys'[..|keys'| - 1] == keys;
    forall i, j | 0 <= i < j < |keys'| ensures keys'[i] != keys'[j] {
      if j < |keys| {
        assert keys'[i] == keys[i] && keys'[j] == keys[j];
      } else {
        assert keys'[i] == keys[i] && keys'[j] == key;
      }
    }
  }

  /** A summed count never exceeds the sum. */
  lemma {:induction false} CountBelowSum(keys: seq<string>, counts: map<string, nat>, i: nat)
    requires i < |keys|
    ensures CountOf(counts, keys[i]) <= SumCounts(keys, counts)
    decreases |keys|
  {
    if i < |keys| - 1 {
      CountBelowSum(keys[..|keys| - 1], counts, i);
    }
  }

  /** The key a `/visit` request counts: its page field, trimmed by the validation chain then sanitised. */
  function PageKey(page: string): (key: string)
    ensures forall i :: 0 <= i < |key| ==> IsPageChar(key[i])
  {
    SanitizePage(Trim(page))
  }

  /** A name already made of key characters is counted under itself. */
  lemma PageKeyOfKey(key: string)
    requires forall i :: 0 <= i < |key| ==> IsPageChar(key[i])
    ensures PageKey(key) == key
  {
    assert NoSpace(key) by {
      forall i | 0 <= i < |key| ensures !IsSpace(key[i]) {
        assert IsPageChar(key[i]);
      }
    }
  }

  /** What `/visit` answers. */
  datatype VisitReply =
    | VisitRecorded(page: string, visits: nat)  // `{ success: true, page, visits }`
    | VisitRejected                             // 400 VALIDATION_ERROR

  /** The `page` rule of `/visit`: `trim().notEmpty().isLength({ max: 60 })`. */
  predicate ValidPageField(page: string) {
    var t := Trim(page);
    1 <= |t| <= 60
  }

  /**
   * The module-level `visitCounts` counter, keyed by page name alone (the
   * behaviour the code intends; `JsVisits` models the plain object it is).
   * `keys` lists the keys in the order they were first counted. JavaScript's
   * `Object.values` lists integer-like keys first, in ascending order, and
   * the rest in this order; a sum of counts does not depend on the order.
   */
  class VisitCounter {
    var keys: seq<string>
    var counts: map<string, nat>

    ghost predicate Valid()
      reads this
    {
      Distinct(keys) && (forall k :: k in counts <==> k in keys)
    }

    /** `totalVisits` of `/stats`. */
    function Total(): nat
      reads this
    {
      SumCounts(keys, counts)
    }

    constructor ()
      ensures Valid() && keys == [] && counts == map[] && Total() == 0
    {
      keys, counts := [], map[];
    }

    /** `visitCounts[key] = (visitCounts[key] || 0) + 1`, returning the new count. */
    method Bump(key: string) returns (visits: nat)
      requires Valid()
      modifies this
      ensures Valid()
      ensures visits == CountOf(old(counts), key) + 1
      ensures counts == old(counts)[key := visits]
      ensures keys == (if key in old(counts) then old(keys) else old(keys) + [key])
      ensures forall k :: k != key ==> CountOf(counts, k) == CountOf(old(counts), k)
      ensures Total() == old(Total()) + 1
    {
      var oldKeys, oldCounts := keys, counts;
      visits := CountOf(oldCounts, key) + 1;
      RecordVisit(oldKeys, oldCounts, key);
      keys := if key in oldCounts then oldKeys else oldKeys + [key];
      counts := oldCounts[key := visits];
      assert Total() == SumCounts(oldKeys, oldCounts) + 1;
    }

    /** POST `/visit`: validate, sanitise, increment. */
    method Visit(page: string) returns (reply: VisitReply)
      requires Valid()
      modifies this
      ensures Valid()
      ensures !ValidPageField(page) ==> reply == VisitRejected && counts == old(counts) && keys == old(keys)
      ensures ValidPageField(page) ==>
        var key := PageKey(page);
        // the sanitised page's count rises by one, from 0 when it was absent
        && counts == old(counts)[key := CountOf(old(counts), key) + 1]
        // the reply carries the sanitised page and its new count
        && reply == VisitRecorded(key, CountOf(old(counts), key) + 1)
        // a new key is added once, at the end
        && keys == (if key in old(counts) then old(keys) else old(keys) + [key])
        // every other page's count is unchanged
        && forall k :: k != key ==> CountOf(counts, k) == CountOf(old(counts), k)
      ensures Total() == old(Total()) + if ValidPageField(page) then 1 else 0
    {
      if !ValidPageField(page) {
        return VisitRejected;
      }
      var key := PageKey(page);
      ghost var before := counts;
      var visits := Bump(key);
      assert visits == CountOf(before, key) + 1;
      assert counts == before[key := visits];
      reply := VisitRecorded(key, visits);
    }

    /** GET `/stats`: the total of all counts and the counts themselves (the uptime field is left out). */
    method Stats() returns (totalVisits: nat, pages: map<string, nat>)
      requires Valid()
      ensures totalVisits == Total() && pages == counts
      ensures forall k :: k in pages ==> pages[k] <= totalVisits
    {
      forall k | k in counts ensures counts[k] <= Total() {
        var i :| 0 <= i < |keys| && keys[i] == k;
        CountBelowSum(keys, counts, i);
      }
      totalVisits, pages := Total(), counts;
    }
  }

  /**
   * The validation chain of POST `/send`. `emailValid` is the verdict of the
   * `isEmail()` rule, which is not part of this model. The name is checked
   * after trimming for presence and at most 80 characters, the message after
   * trimming for 10 to 2000 characters.
   */
  predicate SendAccepted(name: string, emailValid: bool, message: string) {
    var n, m := Trim(name), Trim(message);
    && 1 <= |n| <= 80
    && emailValid
    && 10 <= |m| <= 2000
  }

  /** What `/send` answers. */
  datatype SendReply = MessageReceived | SendRejected

  function Send(name: string, emailValid: bool, message: string): (reply: SendReply)
    // a name of blanks is no name, and blanks never make a message long enough
    ensures (forall i :: 0 <= i < |name| ==> IsSpace(name[i])) ==> reply == SendRejected
    ensures |message| < 10 ==> reply == SendRejected
    ensures reply == MessageReceived ==> |name| >= 1 && |message| >= 10 && emailValid
    // accepted exactly when the trimmed name has 1 to 80 characters and the trimmed message 10 to 2000
    ensures reply == MessageReceived <==> emailValid && 1 <= |Trim(name)| <= 80 && 10 <= |Trim(message)| <= 2000
  {
    if SendAccepted(name, emailValid, message) then MessageReceived else SendRejected
  }

  /** Surrounding blanks neither help nor hurt a submission. */
  lemma SendIgnoresPadding(pad: string, name: string, emailValid: bool, message: string)
    requires AllSpace(pad)
    ensures Send(pad + name + pad, emailValid, pad + message + pad) == Send(name, emailValid, message)
  {
    TrimPadding(pad, name, pad);
    TrimPadding(pad, message, pad);
  }
}
