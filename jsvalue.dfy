/**
 * The loosely shaped JSON-like values the cards read from Home Assistant
 * state attributes and card configuration, with the JavaScript operations the
 * cards apply to them: truthiness, `||` and `??` chains, property access,
 * `Array.isArray`, `filter(Boolean)`, `String(...)`, `Number(...)`, object
 * spread and the structure `JSON.stringify` compares.
 */
module JsValue {
  import opened JsString
  import opened JsNum

  /**
   * A JavaScript value. `undefined` and `null` are distinct from each other and
   * from `false`, `0` and `""`, because the cards treat `??` and `||` differently.
   * An object is a map from property names to values (key order is not kept).
   */
  datatype JValue =
    | JUndefined
    | JNull
    | JBool(b: bool)
    | JNum(n: Num)
    | JStr(s: string)
    | JArr(items: seq<JValue>)
    | JObj(fields: map<string, JValue>)

  /** `!!v`: everything is truthy except undefined, null, false, 0, NaN and "". */
  predicate Truthy(v: JValue)
  {
    match v
    case JUndefined => false
    case JNull => false
    case JBool(b) => b
    case JNum(n) => n != NaN && n != Fin(0.0)
    case JStr(s) => s != ""
    case _ => true
  }

  /** `v == null`: undefined or null. */
  predicate Nullish(v: JValue)
  {
    v == JUndefined || v == JNull
  }

  /** `typeof v === 'object'` (null, arrays and objects). */
  predicate IsObjectType(v: JValue)
  {
    v.JNull? || v.JArr? || v.JObj?
  }

  /** `typeof v === 'number' && isFinite(v)` */
  predicate IsFiniteNumber(v: JValue)
  {
    v.JNum? && v.n.Fin?
  }

  /** `a || b` */
  function Or(a: JValue, b: JValue): JValue
  {
    if Truthy(a) then a else b
  }

  /** `a ?? b` */
  function Coalesce(a: JValue, b: JValue): JValue
  {
    if Nullish(a) then b else a
  }

  /**
   * `v1 || v2 || ... || vn`: the first truthy value, or the last value when
   * none is truthy.
   */
  function FirstTruthy(vs: seq<JValue>): (r: JValue)
    requires |vs| >= 1
    ensures forall i :: 0 <= i < |vs| && Truthy(vs[i]) && (forall j :: 0 <= j < i ==> !Truthy(vs[j])) ==> r == vs[i]
    ensures (forall i :: 0 <= i < |vs| ==> !Truthy(vs[i])) ==> r == vs[|vs| - 1]
    decreases |vs|
  {
    if |vs| == 1 then vs[0]
    else
      var rest := FirstTruthy(vs[1..]);
      assert forall i :: 1 <= i < |vs| ==> vs[i] == vs[1..][i - 1];
      Or(vs[0], rest)
  }

  /**
   * `v1 ?? v2 ?? ... ?? vn`: the first value that is neither undefined nor
   * null, or the last value when all are.
   */
  function FirstPresent(vs: seq<JValue>): (r: JValue)
    requires |vs| >= 1
    ensures forall i :: 0 <= i < |vs| && !Nullish(vs[i]) && (forall j :: 0 <= j < i ==> Nullish(vs[j])) ==> r == vs[i]
    ensures (forall i :: 0 <= i < |vs| ==> Nullish(vs[i])) ==> r == vs[|vs| - 1]
    decreases |vs|
  {
    if |vs| == 1 then vs[0] else Coalesce(vs[0], FirstPresent(vs[1..]))
  }

  /** The result of a `??` chain is present when any candidate is. */
  lemma {:induction false} FirstPresentSome(vs: seq<JValue>, i: nat)
    requires i < |vs| && !Nullish(vs[i])
    ensures !Nullish(FirstPresent(vs))
    decreases i
  {
    if i > 0 && Nullish(vs[0]) {
      FirstPresentSome(vs[1..], i - 1);
    }
  }

  /** A `??` chain is undefined or null exactly when every candidate is. */
  lemma {:induction false} FirstPresentNullish(vs: seq<JValue>)
    requires |vs| >= 1
    ensures Nullish(FirstPresent(vs)) <==> forall i :: 0 <= i < |vs| ==> Nullish(vs[i])
    decreases |vs|
  {
    if |vs| > 1 {
      FirstPresentNullish(vs[1..]);
      assert forall i :: 1 <= i < |vs| ==> vs[i] == vs[1..][i - 1];
    }
  }

  /** v is the first candidate that is neither undefined nor null, or `none` when every candidate is. */
  predicate PicksFirstPresent(cs: seq<JValue>, v: JValue, none: JValue)
  {
    && (forall i :: 0 <= i < |cs| && !Nullish(cs[i]) && (forall j :: 0 <= j < i ==> Nullish(cs[j])) ==> v == cs[i])
    && ((forall i :: 0 <= i < |cs| ==> Nullish(cs[i])) ==> v == none)
  }

  /** A `??` chain ended by `undefined` gives the first present candidate, or undefined when none is. */
  lemma FirstPresentThenUndefined(vs: seq<JValue>)
    requires |vs| >= 1
    ensures forall i :: 0 <= i < |vs| && !Nullish(vs[i]) && (forall j :: 0 <= j < i ==> Nullish(vs[j])) ==>
      FirstPresent(vs + [JUndefined]) == vs[i]
    ensures (forall i :: 0 <= i < |vs| ==> Nullish(vs[i])) ==> FirstPresent(vs + [JUndefined]) == JUndefined
  {
    FirstPresentUndefined(vs);
    FirstPresentNullish(vs);
  }

  /**
   * Ending a `??` chain with `undefined` keeps the chain's present result
   * and turns a null result into undefined.
   */
  lemma {:induction false} FirstPresentUndefined(vs: seq<JValue>)
    requires |vs| >= 1
    ensures FirstPresent(vs + [JUndefined]) == if Nullish(FirstPresent(vs)) then JUndefined else FirstPresent(vs)
    decreases |vs|
  {
    if |vs| > 1 {
      assert (vs + [JUndefined])[1..] == vs[1..] + [JUndefined];
      FirstPresentUndefined(vs[1..]);
    }
  }

  /** `v?.[k]` for a property name: absent keys and non-objects give undefined. */
  function Get(v: JValue, k: string): (r: JValue)
    ensures v.JObj? && k in v.fields ==> r == v.fields[k]
    ensures !(v.JObj? && k in v.fields) ==> r == JUndefined
  {
    if v.JObj? && k in v.fields then v.fields[k] else JUndefined
  }

  /** `v?.[i]` for an array index: out of range or a non-array gives undefined. */
  function At(v: JValue, i: int): (r: JValue)
    ensures v.JArr? && 0 <= i < |v.items| ==> r == v.items[i]
    ensures !(v.JArr? && 0 <= i < |v.items|) ==> r == JUndefined
  {
    if v.JArr? && 0 <= i < |v.items| then v.items[i] else JUndefined
  }

  /** The items of `v` when `Array.isArray(v)`, otherwise `[]`. */
  function ItemsOr(v: JValue): (r: seq<JValue>)
    ensures v.JArr? ==> r == v.items
    ensures !v.JArr? ==> r == []
  {
    if v.JArr? then v.items else []
  }

  /** `s.filter(Boolean)`: the truthy elements, in their order. */
  function FilterTruthy(s: seq<JValue>): (r: seq<JValue>)
    ensures |r| <= |s|
    ensures forall i :: 0 <= i < |r| ==> Truthy(r[i])
    ensures forall x :: x in r <==> x in s && Truthy(x)
    ensures (forall i :: 0 <= i < |s| ==> Truthy(s[i])) ==> r == s
    decreases |s|
  {
    if |s| == 0 then []
    else
      var rest := FilterTruthy(s[1..]);
      assert s == [s[0]] + s[1..];
      if Truthy(s[0]) then [s[0]] + rest else rest
  }

  /** Filtering is applied element by element, so it keeps the order of what it keeps. */
  lemma {:induction false} FilterTruthyAppend(a: seq<JValue>, b: seq<JValue>)
    ensures FilterTruthy(a + b) == FilterTruthy(a) + FilterTruthy(b)
    decreases |a|
  {
    if |a| > 0 {
      assert (a + b)[0] == a[0];
      assert (a + b)[1..] == a[1..] + b;
      FilterTruthyAppend(a[1..], b);
    } else {
      assert a + b == b;
    }
  }

  /** Filtering twice is filtering once. */
  lemma FilterTruthyIdempotent(s: seq<JValue>)
    ensures FilterTruthy(FilterTruthy(s)) == FilterTruthy(s)
  {
  }

  /** The pieces `Array.prototype.join` joins: String(x) for each element, "" for undefined and null. */
  function ElementStrings(items: seq<JValue>, whole: JValue): (r: seq<string>)
    requires whole.JArr? && items == whole.items
    ensures |r| == |items|
    decreases whole, 0
  {
    seq(|items|, i requires 0 <= i < |items| => if Nullish(items[i]) then "" else ToStr(items[i]))
  }

  /** `String(v)`: an array joins its elements with ",", an object is "[object Object]". */
  function ToStr(v: JValue): string
    decreases v, 1
  {
    match v
    case JUndefined => "undefined"
    case JNull => "null"
    case JBool(b) => if b then "true" else "false"
    case JNum(n) => NumToString(n)
    case JStr(s) => s
    case JArr(items) => if |items| == 0 then "" else Join(ElementStrings(items, v), ',')
    case JObj(_) => "[object Object]"
  }

  /** `Number(v)`: arrays are converted through their string form, objects give NaN. */
  function ToNumber(v: JValue): Num
  {
    match v
    case JUndefined => NaN
    case JNull => Fin(0.0)
    case JBool(b) => if b then Fin(1.0) else Fin(0.0)
    case JNum(n) => n
    case JStr(s) => StringToNumber(s)
    case JArr(_) => StringToNumber(ToStr(v))
    case JObj(_) => NaN
  }

  /** The own properties `{ ...v }` copies: an object's fields, nothing for undefined and null. */
  function Spread(v: JValue): (r: map<string, JValue>)
    ensures v.JObj? ==> r == v.fields
    ensures Nullish(v) ==> r == map[]
  {
    if v.JObj? then v.fields else map[]
  }

  /**
   * What `JSON.stringify` writes for a value that is not undefined: object
   * properties holding undefined are dropped, undefined array elements and
   * non-finite numbers become null. Two values whose properties occur in the
   * same order give the same JSON text exactly when their forms are equal.
   */
  function JsonForm(v: JValue): (r: JValue)
    ensures r != JUndefined || v == JUndefined
    ensures v.JNull? || v.JBool? || v.JStr? || (v.JNum? && v.n.Fin?) ==> r == v
    ensures v.JNum? && !v.n.Fin? ==> r == JNull
    ensures v.JObj? ==> r.JObj? && r.fields.Keys == (set k | k in v.fields && v.fields[k] != JUndefined)
    ensures v.JObj? ==> forall k :: k in r.fields ==> k in v.fields && r.fields[k] == JsonForm(v.fields[k])
    ensures v.JArr? ==> r.JArr? && |r.items| == |v.items|
    ensures v.JArr? ==> forall i :: 0 <= i < |v.items| ==>
      r.items[i] == (if v.items[i] == JUndefined then JNull else JsonForm(v.items[i]))
    decreases v
  {
    match v
    case JUndefined => JUndefined
    case JNum(n) => if n.Fin? then v else JNull
    case JArr(items) =>
      JArr(seq(|items|, i requires 0 <= i < |items| =>
        if items[i] == JUndefined then JNull else JsonForm(items[i])))
    case JObj(fields) =>
      JObj(map k | k in fields && fields[k] != JUndefined :: JsonForm(fields[k]))
    case _ => v
  }

  /** The JSON text of `JObj(m)`, up to property order. */
  function JsonObject(m: map<string, JValue>): JValue
  {
    JsonForm(JObj(m))
  }
}
