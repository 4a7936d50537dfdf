/** The JavaScript values that the error serializer inspects and produces.
    A value is either an Error (the `instanceof Error` family) or anything
    else. Errors appear only as the links of a cause chain; the values in an
    Error's fields and in plain objects are never Errors. */
module JsValues {

  datatype Option<+T> = None | Some(value: T)

  /** The largest integer a JavaScript number holds exactly, 2^53 - 1. */
  const MaxSafeInteger: int := 0x1F_FFFF_FFFF_FFFF

  /** The integer-valued numbers of the model: the safe integers. All of them
      are below 1e21, so `String` prints them as plain decimal digits. */
  type SafeInt = n: int | -MaxSafeInteger <= n <= MaxSafeInteger

  /** A JavaScript value that is not an Error. Numbers are safe integers
      here (NaN is kept because it is falsy). A plain object is the list of
      its own properties; the serializer passes plain objects through
      unchanged, so JavaScript's key order (integer-like keys first) and its
      rule against duplicate keys are not modelled. */
  datatype Datum =
    | Undefined
    | Null
    | Bool(b: bool)
    | Num(n: SafeInt)
    | NaN
    | Str(s: string)
    | Object(props: seq<Prop>)

  datatype Prop = Prop(key: string, val: Datum)

  /** What the call of a function-valued cause does: it returns a value or
      throws. */
  datatype CallOutcome = Returns(result: Value) | Throws

  /** The value read from an Error's `cause` property: a value that is not a
      function, or a zero-argument function to be called. */
  datatype CauseSlot = Eager(value: Value) | Lazy(outcome: CallOutcome)

  /** A value as `instanceof Error` sees it. An Error carries the five
      properties the serializer reads, each `Undefined` when absent, and its
      cause slot. */
  datatype Value =
    | NonError(d: Datum)
    | Err(name: Datum, message: Datum, code: Datum, signal: Datum, stack: Datum, cause: CauseSlot)

  /** JavaScript truthiness: `undefined`, `null`, `false`, `0`, `NaN` and
      `""` are falsy; every object is truthy, the empty plain object too. */
  predicate Truthy(d: Datum)
  {
    match d
    case Undefined => false
    case Null => false
    case Bool(b) => b
    case Num(n) => n != 0
    case NaN => false
    case Str(s) => s != ""
    case Object(_) => true
  }

  /** Truthiness of any value: an Error is an object, hence truthy. */
  predicate IsTruthy(v: Value)
  {
    match v
    case NonError(d) => Truthy(d)
    case Err(_, _, _, _, _, _) => true
  }

  /** The index of the first property named `k`, if any. */
  function Find(ps: seq<Prop>, k: string): (r: Option<nat>)
    ensures r.Some? ==> r.value < |ps| && ps[r.value].key == k
    ensures r.Some? ==> forall i :: 0 <= i < r.value ==> ps[i].key != k
    ensures r.None? ==> forall i :: 0 <= i < |ps| ==> ps[i].key != k
  {
    if |ps| == 0 then None
    else if ps[0].key == k then Some(0)
    else
      match Find(ps[1..], k)
      case None => None
      case Some(i) => Some(i + 1)
  }

  /** Property lookup `d[k]` on a plain object; `None` when the key is not
      there (or `d` is not an object). */
  function Get(d: Datum, k: string): (r: Option<Datum>)
    ensures r.Some? <==> d.Object? && exists i :: 0 <= i < |d.props| && d.props[i].key == k
  {
    if !d.Object? then None
    else
      match Find(d.props, k)
      case None => None
      case Some(i) => Some(d.props[i].val)
  }

  /** `if (cond) { o[key] = val; }` on an object that does not have `key`
      yet: the property is appended. */
  function SetIf(o: seq<Prop>, cond: bool, key: string, val: Datum): seq<Prop>
  {
    if cond then o + [Prop(key, val)] else o
  }

  /** The keys of a property list, in order. */
  function Keys(ps: seq<Prop>): (ks: seq<string>)
    ensures |ks| == |ps| && forall i :: 0 <= i < |ps| ==> ks[i] == ps[i].key
  {
    seq(|ps|, i requires 0 <= i < |ps| => ps[i].key)
  }

  /** Appending a property with a new key leaves every other lookup alone
      and makes the new key resolve to the appended value. */
  lemma GetAppend(ps: seq<Prop>, p: Prop, k: string)
    requires forall i :: 0 <= i < |ps| ==> ps[i].key != p.key
    ensures Get(Object(ps + [p]), k) == if k == p.key then Some(p.val) else Get(Object(ps), k)
  {
    var qs := ps + [p];
    if k == p.key {
      assert qs[|ps|].key == k;
      match Find(qs, k)
      case Some(i) => assert i == |ps|;
    } else {
      match Find(ps, k)
      case None =>
      case Some(i) => assert qs[i] == ps[i];
    }
  }

  /** The number a string of decimal digits denotes. */
  function DigitsValue(s: string): nat
    requires forall i :: 0 <= i < |s| ==> '0' <= s[i] <= '9'
  {
    if |s| == 0 then 0
    else 10 * DigitsValue(s[..|s| - 1]) + (s[|s| - 1] - '0') as nat
  }

  /** The decimal digits of `n`: no leading zero, and they denote `n`. */
  function NatToString(n: nat): (s: string)
    ensures |s| > 0
    ensures forall i :: 0 <= i < |s| ==> '0' <= s[i] <= '9'
    ensures |s| > 1 ==> s[0] != '0'
    ensures DigitsValue(s) == n
  {
    var digit := ['0' + (n % 10) as char];
    if n < 10 then digit
    else
      var prefix := NatToString(n / 10);
      assert (prefix + digit)[..|prefix + digit| - 1] == prefix;
      prefix + digit
  }

  /** `String(n)` for a safe integer: a minus sign exactly when `n` is
      negative, then the decimal digits of its magnitude, without a leading
      zero. */
  function IntToString(n: SafeInt): (s: string)
    ensures |s| > 0
    ensures (s[0] == '-') <==> n < 0
    ensures n < 0 ==> |s| > 1 && (forall i :: 1 <= i < |s| ==> '0' <= s[i] <= '9') && DigitsValue(s[1..]) == -n
    ensures n >= 0 ==> (forall i :: 0 <= i < |s| ==> '0' <= s[i] <= '9') && DigitsValue(s) == n
    ensures n >= 0 && |s| > 1 ==> s[0] != '0'
    ensures n < 0 ==> s[1] != '0'
  {
    if n < 0 then
      var digits := NatToString(-n);
      assert ("-" + digits)[1..] == digits;
      "-" + digits
    else NatToString(n)
  }

  /** The `message` an Error constructor stores for its argument: nothing
      when the argument is `undefined` (the inherited empty message is then
      read), its `String(...)` conversion otherwise: `"null"`, `"true"`,
      `"false"`, the decimal digits of a number, `"NaN"`, the string itself.
      A plain object converts with the default `Object.prototype.toString`. */
  function ErrorMessage(m: Datum): (s: string)
    ensures s == "" <==> m == Undefined || m == Str("")
    ensures m.Str? ==> s == m.s
    ensures m == Null ==> s == "null"
    ensures m.Bool? ==> s == if m.b then "true" else "false"
    ensures m == NaN ==> s == "NaN"
    ensures m.Num? ==> s == IntToString(m.n)
    ensures m.Object? ==> s == "[object Object]"
  {
    match m
    case Undefined => ""
    case Null => "null"
    case Bool(b) => if b then "true" else "false"
    case Num(n) => IntToString(n)
    case NaN => "NaN"
    case Str(s) => s
    case Object(_) => "[object Object]"
  }
}
