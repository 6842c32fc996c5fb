/**
 * The visit counter of `/visit` and `/stats` as the code is written: a plain
 * JavaScript object (`const visitCounts = {}`), whose lookups fall through to
 * `Object.prototype` for a key it does not own. Sanitised keys are made of
 * `[a-z0-9_-]`, so the only inherited members they can name are
 * `constructor` and `__proto__` (every other member of `Object.prototype` has
 * an upper-case letter). For every other key this counter agrees with the
 * map-based `Contact.VisitCounter`; for those two it does not.
 */
module JsVisits {
  import Contact

  /** The values that occur in `visitCounts` and in the expressions over it. */
  datatype JsValue =
    | Undefined
    | NaN
    | Num(n: nat)
    | Str(s: string)
    | ObjectFn      // `Object`, the value of the inherited `constructor`
    | ObjectProto   // `Object.prototype`, the value of the inherited `__proto__`

  /** `String(Object)` */
  const ObjectFnText := "function Object() { [native code] }"
  /** `String(Object.prototype)` */
  const ObjectProtoText := "[object Object]"

  /**
   * `visitCounts[k]` for a sanitised key `k`: an own property, else what
   * `Object.prototype` has under that name, which for such a key is only
   * `constructor` or `__proto__`.
   */
  function Get(own: map<string, JsValue>, k: string): (v: JsValue)
    ensures k in own ==> v == own[k]
    ensures k !in own && k != "constructor" && k != "__proto__" ==> v == Undefined
  {
    if k in own then own[k]
    else if k == "constructor" then ObjectFn
    else if k == "__proto__" then ObjectProto
    else Undefined
  }

  predicate Truthy(v: JsValue) {
    match v
    case Undefined => false
    case NaN => false
    case Num(n) => n != 0
    case Str(s) => s != ""
    case ObjectFn => true
    case ObjectProto => true
  }

  /** `v || 0` */
  function OrZero(v: JsValue): JsValue {
    if Truthy(v) then v else Num(0)
  }

  /** The decimal numeral of `n`. */
  function Numeral(n: nat): (s: string)
    ensures |s| >= 1
  {
    if n < 10 then ["0123456789"[n]] else Numeral(n / 10) + ["0123456789"[n % 10]]
  }

  /** `String(v)` */
  function ToText(v: JsValue): string {
    match v
    case Undefined => "undefined"
    case NaN => "NaN"
    case Num(n) => Numeral(n)
    case Str(s) => s
    case ObjectFn => ObjectFnText
    case ObjectProto => ObjectProtoText
  }

  predicate Stringish(v: JsValue) {
    v.Str? || v.ObjectFn? || v.ObjectProto?
  }

  /** `a + b`: concatenation once either side is a string or an object, addition of numbers otherwise. */
  function Plus(a: JsValue, b: JsValue): (r: JsValue)
    ensures a.Num? && b.Num? ==> r == Num(a.n + b.n)
    ensures Stringish(a) || Stringish(b) ==> r == Str(ToText(a) + ToText(b))
  {
    if Stringish(a) || Stringish(b) then Str(ToText(a) + ToText(b))
    else if a.Num? && b.Num? then Num(a.n + b.n)
    else NaN
  }

  /**
   * `visitCounts[key] = (visitCounts[key] || 0) + 1`, then the reply's
   * `visitCounts[key]`. An assignment of a non-object to `__proto__` is
   * ignored.
   */
  function Bump(own: map<string, JsValue>, key: string): (r: (map<string, JsValue>, JsValue))
    ensures key != "__proto__" ==> r.0 == own[key := r.1]
    ensures key == "__proto__" ==> r.0 == own
  {
    var v := Plus(OrZero(Get(own, key)), Num(1));
    var own' := if key == "__proto__" then own else own[key := v];
    (own', Get(own', key))
  }

  /** `Object.values(visitCounts).reduce((a, b) => a + b, 0)`, over the own keys in `keys` order. */
  function Total(keys: seq<string>, own: map<string, JsValue>): JsValue
    requires forall i :: 0 <= i < |keys| ==> keys[i] in own
    decreases |keys|
  {
    if keys == [] then Num(0)
    else Plus(Total(keys[..|keys| - 1], own), own[keys[|keys| - 1]])
  }

  /** The object holding the counts of the map-based counter. */
  function Lift(counts: map<string, nat>): (own: map<string, JsValue>)
    ensures forall k :: k in own <==> k in counts
  {
    map k | k in counts :: Num(counts[k])
  }

  /** Away from the two inherited names, the object counts like the map-based counter. */
  lemma BumpAgrees(counts: map<string, nat>, key: string)
    requires key != "constructor" && key != "__proto__"
    ensures var n := Contact.CountOf(counts, key) + 1;
            Bump(Lift(counts), key) == (Lift(counts[key := n]), Num(n))
  {
    var n := Contact.CountOf(counts, key) + 1;
    assert Lift(counts)[key := Num(n)] == Lift(counts[key := n]);
  }

  /** With numbers only, the reduction is the sum that `Contact.SumCounts` states. */
  lemma {:induction false} TotalAgrees(keys: seq<string>, counts: map<string, nat>)
    requires forall i :: 0 <= i < |keys| ==> keys[i] in counts
    ensures Total(keys, Lift(counts)) == Num(Contact.SumCounts(keys, counts))
    decreases |keys|
  {
    if keys != [] {
      TotalAgrees(keys[..|keys| - 1], counts);
    }
  }

  /** A first visit of the page "constructor" answers a string, not a count. */
  lemma ConstructorVisitIsText()
    ensures Contact.PageKey("constructor") == "constructor"
    ensures Bump(map[], "constructor").1 == Str(ObjectFnText + "1")
  {
    ConstructorIsKey();
    FirstConstructorBump();
  }

  lemma ConstructorIsKey()
    ensures Contact.PageKey("constructor") == "constructor"
  {
    var page := "constructor";
    assert forall i :: 0 <= i < |page| ==> Contact.IsPageChar(page[i]);
    Contact.PageKeyOfKey(page);
  }

  lemma FirstConstructorBump()
    ensures Bump(map[], "constructor").1 == Str(ObjectFnText + "1")
  {
    var k := "constructor";
    assert k != "__proto__" by { assert |k| != |"__proto__"|; }
    assert Get(map[], k) == ObjectFn;
    assert ToText(Num(1)) == "1";
  }

  /** After visits of "home" and "constructor" the total is a string, not 2. */
  lemma ConstructorBreaksTotal()
    ensures var (own1, _) := Bump(map[], "home");
            var (own2, _) := Bump(own1, "constructor");
            && own2 == map["home" := Num(1), "constructor" := Str(ObjectFnText + "1")]
            && Total(["home", "constructor"], own2) == Str("1" + ObjectFnText + "1")
            && Total(["home", "constructor"], own2) != Num(2)
  {
    assert Numeral(1) == "1";
    var own2 := map["home" := Num(1), "constructor" := Str(ObjectFnText + "1")];
    var keys := ["home", "constructor"];
    assert keys[..1] == ["home"] && keys[..1][..0] == [];
    assert Total(keys[..1], own2) == Num(1);
  }

  /** A visit of "__proto__" counts nothing and answers `Object.prototype` (serialised as `{}`). */
  lemma ProtoVisitIgnored(own: map<string, JsValue>)
    requires "__proto__" !in own
    ensures Contact.PageKey("__proto__") == "__proto__"
    ensures Bump(own, "__proto__") == (own, ObjectProto)
  {
    var page := "__proto__";
    assert forall i :: 0 <= i < |page| ==> Contact.IsPageChar(page[i]);
    Contact.PageKeyOfKey(page);
  }
}
