/** What `Exception.errSerializer` promises: the shape of the record it
    builds for one Error, how it follows a chain of causes, and what the
    `showStack` flag changes. */
module SerializerProperties {
  import opened JsValues
  import opened Exceptions

  /** The only keys a serialized Error may have, in the order they are set. */
  const RecordKeys: seq<string> := ["name", "message", "code", "signal", "stack", "cause"]

  /** The position of `k` in `RecordKeys`, or 6 for any other key. */
  function KeyRank(k: string): (r: nat)
    ensures r <= |RecordKeys|
    ensures r < |RecordKeys| ==> RecordKeys[r] == k
  {
    if k == "name" then 0
    else if k == "message" then 1
    else if k == "code" then 2
    else if k == "signal" then 3
    else if k == "stack" then 4
    else if k == "cause" then 5
    else 6
  }

  /** Every key is one of `RecordKeys`, and they come in that order (so no
      key appears twice). */
  predicate CanonicalOrder(ks: seq<string>)
  {
    && (forall i :: 0 <= i < |ks| ==> KeyRank(ks[i]) < |RecordKeys|)
    && (forall i, j :: 0 <= i < j < |ks| ==> KeyRank(ks[i]) < KeyRank(ks[j]))
  }

  predicate RanksBelow(o: seq<Prop>, bound: nat)
  {
    forall i :: 0 <= i < |o| ==> KeyRank(o[i].key) < bound
  }

  /** The value of a property copied only when truthy. */
  function Present(d: Datum): Option<Datum>
  {
    if Truthy(d) then Some(d) else None
  }

  /** The reference description of the first four fields: each present
      exactly when truthy. */
  function BaseField(err: Value, key: string): Option<Datum>
    requires err.Err?
  {
    if key == "name" then Present(err.name)
    else if key == "message" then Present(err.message)
    else if key == "code" then Present(err.code)
    else if key == "signal" then Present(err.signal)
    else None
  }

  /** The serialized cause of an Error, if it gets one. */
  function SerializedCause(err: Value, showStack: bool): Option<Datum>
    requires err.Err?
  {
    var next := ResolveCause(err.cause);
    if IsTruthy(next) then Some(Exception.ErrSerializer(next, showStack)) else None
  }

  /** The reference description of the record for an Error, key by key. */
  function ExpectedField(err: Value, showStack: bool, key: string): Option<Datum>
    requires err.Err?
  {
    if key == "stack" then (if showStack then Present(err.stack) else None)
    else if key == "cause" then SerializedCause(err, showStack)
    else BaseField(err, key)
  }

  /** One conditional assignment of a key ranked above every key already set. */
  lemma SetIfStep(o: seq<Prop>, cond: bool, key: string, val: Datum, q: string)
    requires CanonicalOrder(Keys(o)) && RanksBelow(o, KeyRank(key)) && KeyRank(key) < |RecordKeys|
    ensures CanonicalOrder(Keys(SetIf(o, cond, key, val)))
    ensures RanksBelow(SetIf(o, cond, key, val), KeyRank(key) + 1)
    ensures Get(Object(SetIf(o, cond, key, val)), q) == if cond && q == key then Some(val) else Get(Object(o), q)
  {
    if cond {
      GetAppend(o, Prop(key, val), q);
      var ks := Keys(o + [Prop(key, val)]);
      assert forall i :: 0 <= i < |ks| ==> ks[i] == (o + [Prop(key, val)])[i].key;
    }
  }

  /** The first four fields: `name`, `message`, `code` and `signal` exactly
      when truthy, in that order. */
  lemma ErrorFieldsLayout(err: Value, q: string)
    requires err.Err?
    ensures CanonicalOrder(Keys(ErrorFields(err))) && RanksBelow(ErrorFields(err), 4)
    ensures Get(Object(ErrorFields(err)), q) == BaseField(err, q)
  {
    var o1 := SetIf([], Truthy(err.name), "name", err.name);
    var o2 := SetIf(o1, Truthy(err.message), "message", err.message);
    var o3 := SetIf(o2, Truthy(err.code), "code", err.code);
    SetIfStep([], Truthy(err.name), "name", err.name, q);
    SetIfStep(o1, Truthy(err.message), "message", err.message, q);
    SetIfStep(o2, Truthy(err.code), "code", err.code, q);
    SetIfStep(o3, Truthy(err.signal), "signal", err.signal, q);
  }

  /** The record built for one Error: every key resolves to what the
      reference description says (falsy fields are absent, not `null`;
      `stack` only when asked for; `cause` as the serialized resolved
      cause), and its keys are a subset of `RecordKeys` in their order. */
  lemma RecordLayoutAt(err: Value, showStack: bool, q: string)
    requires err.Err?
    ensures Exception.ErrSerializer(err, showStack).Object?
    ensures CanonicalOrder(Keys(Exception.ErrSerializer(err, showStack).props))
    ensures Get(Exception.ErrSerializer(err, showStack), q) == ExpectedField(err, showStack, q)
  {
    var f := ErrorFields(err);
    ErrorFieldsLayout(err, q);
    var o := SetIf(f, showStack && Truthy(err.stack), "stack", err.stack);
    SetIfStep(f, showStack && Truthy(err.stack), "stack", err.stack, q);
    assert Get(Object(o), q) == if q == "stack" then ExpectedField(err, showStack, q) else BaseField(err, q);
    var cause := ResolveCause(err.cause);
    if IsTruthy(cause) {
      SetIfStep(o, true, "cause", Exception.ErrSerializer(cause, showStack), q);
    }
  }

  /** `o.cause` is there exactly when the resolved cause is truthy, and is
      then that cause serialized with the same flag; a truthy non-Error
      cause thus stands there verbatim. */
  lemma CauseKey(err: Value, showStack: bool)
    requires err.Err?
    ensures var c := ResolveCause(err.cause);
      Get(Exception.ErrSerializer(err, showStack), "cause") ==
        if IsTruthy(c) then Some(Exception.ErrSerializer(c, showStack)) else None
    ensures var c := ResolveCause(err.cause);
      IsTruthy(c) && c.NonError? ==> Get(Exception.ErrSerializer(err, showStack), "cause") == Some(c.d)
  {
    RecordLayoutAt(err, showStack, "cause");
  }

  /** A function-valued cause that throws is as if the cause were `null`:
      the record is the same and has no `cause` key. */
  lemma ThrowingCauseSwallowed(err: Value, showStack: bool)
    requires err.Err? && err.cause == Lazy(Throws)
    ensures Exception.ErrSerializer(err, showStack) == Exception.ErrSerializer(err.(cause := NullCause), showStack)
    ensures Get(Exception.ErrSerializer(err, showStack), "cause") == None
  {
    CauseKey(err, showStack);
  }

  /** A function-valued cause that returns `v` is as if the cause were `v`. */
  lemma LazyCauseResolved(err: Value, v: Value, showStack: bool)
    requires err.Err? && err.cause == Lazy(Returns(v))
    ensures Exception.ErrSerializer(err, showStack) == Exception.ErrSerializer(err.(cause := Eager(v)), showStack)
  {
  }

  /** The number of Errors along a cause chain: the value itself, then its
      resolved cause, and so on. A non-Error, truthy or not, ends it. */
  function ChainLength(v: Value): nat
  {
    match v
    case NonError(_) => 0
    case Err(_, _, _, _, _, c) =>
      var next := ResolveCause(c);
      1 + if next.Err? then ChainLength(next) else 0
  }

  /** The `k`-th link of the chain (the value itself for `k == 0`). */
  function ChainAt(v: Value, k: nat): Value
    decreases k
  {
    if k == 0 || v.NonError? then v else ChainAt(ResolveCause(v.cause), k - 1)
  }

  /** What ends the chain: a truthy non-Error where the serializer copies it
      verbatim, or nothing when the last Error's resolved cause is falsy. A
      non-Error at the head is its own end. */
  function ChainEnd(v: Value): Option<Datum>
  {
    match v
    case NonError(d) => Some(d)
    case Err(_, _, _, _, _, c) =>
      var next := ResolveCause(c);
      if IsTruthy(next) then ChainEnd(next) else None
  }

  /** The output followed `k` times through its `cause` keys. */
  function CauseAt(d: Datum, k: nat): Option<Datum>
    decreases k
  {
    if k == 0 then Some(d)
    else
      match Get(d, "cause")
      case None => None
      case Some(c) => CauseAt(c, k - 1)
  }

  /** The output nests one record per Error of the chain: following the
      `cause` keys `k` times, for `k` below the chain's length, reaches the
      serialization of the `k`-th Error. */
  lemma {:induction false} ChainLevel(v: Value, showStack: bool, k: nat)
    requires k < ChainLength(v)
    ensures ChainAt(v, k).Err?
    ensures CauseAt(Exception.ErrSerializer(v, showStack), k) == Some(Exception.ErrSerializer(ChainAt(v, k), showStack))
    decreases k
  {
    if k > 0 {
      var next := ResolveCause(v.cause);
      CauseKey(v, showStack);
      ChainLevel(next, showStack, k - 1);
    }
  }

  /** One step past the last Error there is exactly the chain's end: the
      truthy non-Error copied verbatim, or nothing when the last cause is
      falsy. So a chain of n Errors ending in a falsy cause nests exactly n
      records. */
  lemma {:induction false} ChainEndLevel(v: Value, showStack: bool)
    ensures CauseAt(Exception.ErrSerializer(v, showStack), ChainLength(v)) == ChainEnd(v)
    decreases v
  {
    if v.Err? {
      var next := ResolveCause(v.cause);
      CauseKey(v, showStack);
      if IsTruthy(next) {
        ChainEndLevel(next, showStack);
      }
    }
  }

  /** The innermost record (the last Error's) has a `cause` key exactly when
      the chain ends in a truthy non-Error, which then stands there as it is. */
  lemma InnermostCause(v: Value, showStack: bool)
    requires v.Err?
    ensures ChainLength(v) >= 1
    ensures var innermost := CauseAt(Exception.ErrSerializer(v, showStack), ChainLength(v) - 1);
      innermost.Some? && innermost.value.Object? && Get(innermost.value, "cause") == ChainEnd(v)
  {
    LastLink(v);
    var n := ChainLength(v);
    var last := ChainAt(v, n - 1);
    ChainLevel(v, showStack, n - 1);
    var inner := Exception.ErrSerializer(last, showStack);
    assert CauseAt(Exception.ErrSerializer(v, showStack), n - 1) == Some(inner);
    CauseKey(last, showStack);
    var next := ResolveCause(last.cause);
    if IsTruthy(next) {
      assert Get(inner, "cause") == Some(next.d);
    } else {
      assert Get(inner, "cause") == None;
    }
  }

  /** The last Error of the chain resolves to the chain's end. */
  lemma {:induction false} LastLink(v: Value)
    requires v.Err?
    ensures ChainLength(v) >= 1 && ChainAt(v, ChainLength(v) - 1).Err?
    ensures var next := ResolveCause(ChainAt(v, ChainLength(v) - 1).cause);
      next.NonError? && ChainEnd(v) == (if Truthy(next.d) then Some(next.d) else None)
    decreases v
  {
    var next := ResolveCause(v.cause);
    if next.Err? {
      LastLink(next);
      assert ChainAt(v, ChainLength(v) - 1) == ChainAt(next, ChainLength(next) - 1);
    }
  }

  /** With `showStack` false no record along the chain has a `stack` key. */
  lemma HiddenStackNowhere(v: Value, k: nat)
    requires k < ChainLength(v)
    ensures var level := CauseAt(Exception.ErrSerializer(v, false), k);
      level.Some? && level.value.Object? && Get(level.value, "stack") == None
  {
    ChainLevel(v, false, k);
    RecordLayoutAt(ChainAt(v, k), false, "stack");
  }

  /** The properties of `ps` other than those named `k`. */
  function WithoutKey(ps: seq<Prop>, k: string): seq<Prop>
  {
    if |ps| == 0 then []
    else (if ps[0].key == k then [] else [ps[0]]) + WithoutKey(ps[1..], k)
  }

  /** `ps` with the value of its first property named `k` set to `v`. */
  function Replace(ps: seq<Prop>, k: string, v: Datum): seq<Prop>
  {
    if |ps| == 0 then []
    else if ps[0].key == k then [Prop(k, v)] + ps[1..]
    else [ps[0]] + Replace(ps[1..], k, v)
  }

  /** The record `d` with `stack` removed from it and from the records
      nested under its `cause`, `n` levels deep. */
  function DropStack(d: Datum, n: nat): Datum
    decreases n
  {
    if n == 0 || !d.Object? then d
    else
      var ps := WithoutKey(d.props, "stack");
      match Get(d, "cause")
      case None => Object(ps)
      case Some(c) => Object(Replace(ps, "cause", DropStack(c, n - 1)))
  }

  lemma {:induction false} WithoutKeyAppend(a: seq<Prop>, b: seq<Prop>, k: string)
    ensures WithoutKey(a + b, k) == WithoutKey(a, k) + WithoutKey(b, k)
    decreases |a|
  {
    if |a| > 0 {
      WithoutKeyAppend(a[1..], b, k);
      assert (a + b)[1..] == a[1..] + b;
    } else {
      assert a + b == b;
    }
  }

  lemma {:induction false} WithoutAbsentKey(a: seq<Prop>, k: string)
    requires forall i :: 0 <= i < |a| ==> a[i].key != k
    ensures WithoutKey(a, k) == a
    decreases |a|
  {
    if |a| > 0 {
      WithoutAbsentKey(a[1..], k);
    }
  }

  lemma {:induction false} ReplaceLast(a: seq<Prop>, k: string, v: Datum, w: Datum)
    requires forall i :: 0 <= i < |a| ==> a[i].key != k
    ensures Replace(a + [Prop(k, v)], k, w) == a + [Prop(k, w)]
    decreases |a|
  {
    if |a| > 0 {
      ReplaceLast(a[1..], k, v, w);
      assert (a + [Prop(k, v)])[1..] == a[1..] + [Prop(k, v)];
    }
  }

  /** One level of `DropStack` on a record built as the serializer builds
      it: the `stack` property goes, and the `cause` value is stripped one
      level less deep. */
  lemma DropStackLevel(f: seq<Prop>, hasStack: bool, stack: Datum, cause: Option<Datum>, stripped: Option<Datum>, n: nat)
    requires n >= 1
    requires forall i :: 0 <= i < |f| ==> f[i].key != "stack" && f[i].key != "cause"
    requires stripped == StrippedCause(cause, n - 1)
    ensures DropStack(Object(SetIf(f, hasStack, "stack", stack) + CauseProp(cause)), n)
         == Object(f + CauseProp(stripped))
  {
    var withStack := SetIf(f, hasStack, "stack", stack);
    StackRemoved(f, hasStack, stack);
    var t := withStack + CauseProp(cause);
    if cause.Some? {
      GetAppend(withStack, Prop("cause", cause.value), "cause");
      WithoutKeyAppend(withStack, [Prop("cause", cause.value)], "stack");
      assert WithoutKey(t, "stack") == f + [Prop("cause", cause.value)];
      ReplaceLast(f, "cause", cause.value, DropStack(cause.value, n - 1));
    } else {
      assert t == withStack;
      assert Get(Object(t), "cause") == None;
    }
  }

  /** Removing `stack` from the first fields with the stack appended gives
      the first fields back; neither part holds a `cause` key. */
  lemma StackRemoved(f: seq<Prop>, hasStack: bool, stack: Datum)
    requires forall i :: 0 <= i < |f| ==> f[i].key != "stack" && f[i].key != "cause"
    ensures WithoutKey(SetIf(f, hasStack, "stack", stack), "stack") == f
    ensures forall i :: 0 <= i < |SetIf(f, hasStack, "stack", stack)| ==>
      SetIf(f, hasStack, "stack", stack)[i].key != "cause"
  {
    WithoutAbsentKey(f, "stack");
    WithoutKeyAppend(f, [Prop("stack", stack)], "stack");
  }

  /** A serialized cause, if any, stripped `n` levels deep. */
  function StrippedCause(cause: Option<Datum>, n: nat): Option<Datum>
  {
    if cause.Some? then Some(DropStack(cause.value, n)) else None
  }

  /** The `cause` property the serializer sets, if any. */
  function CauseProp(cause: Option<Datum>): seq<Prop>
  {
    if cause.Some? then [Prop("cause", cause.value)] else []
  }

  /** The record of an Error as its three parts: the first four fields, the
      stack if shown, the cause if any. */
  lemma RecordParts(err: Value, showStack: bool)
    requires err.Err?
    ensures Exception.ErrSerializer(err, showStack)
         == Object(SetIf(ErrorFields(err), showStack && Truthy(err.stack), "stack", err.stack)
                   + CauseProp(SerializedCause(err, showStack)))
    ensures forall i :: 0 <= i < |ErrorFields(err)| ==>
      ErrorFields(err)[i].key != "stack" && ErrorFields(err)[i].key != "cause"
  {
    ErrorFieldsLayout(err, "");
  }

  /** One level of `StackOnlyDifference`, given that it holds for the cause. */
  lemma StackOnlyStep(v: Value)
    requires v.Err?
    requires var next := ResolveCause(v.cause);
      next.Err? ==> Exception.ErrSerializer(next, false) == DropStack(Exception.ErrSerializer(next, true), ChainLength(next))
    ensures Exception.ErrSerializer(v, false) == DropStack(Exception.ErrSerializer(v, true), ChainLength(v))
  {
    var f := ErrorFields(v);
    var n := ChainLength(v);
    var deeper := SerializedCause(v, true);
    var shallower := SerializedCause(v, false);
    var withStack := SetIf(f, Truthy(v.stack), "stack", v.stack) + CauseProp(deeper);
    var withoutStack := f + CauseProp(shallower);
    assert Exception.ErrSerializer(v, true) == Object(withStack) by {
      RecordParts(v, true);
    }
    assert Exception.ErrSerializer(v, false) == Object(withoutStack) by {
      RecordParts(v, false);
      assert SetIf(f, false, "stack", v.stack) == f;
    }
    assert DropStack(Object(withStack), n) == Object(withoutStack) by {
      CauseStripped(v);
      StrippedRecord(v);
    }
  }

  /** The record with stacks, stripped down to the chain's length, is the
      record without stacks, written as its parts, once the cause is known
      to strip to its stackless serialization. */
  lemma StrippedRecord(v: Value)
    requires v.Err? && ChainLength(v) >= 1
    requires StrippedCause(SerializedCause(v, true), ChainLength(v) - 1) == SerializedCause(v, false)
    ensures DropStack(Object(SetIf(ErrorFields(v), Truthy(v.stack), "stack", v.stack) + CauseProp(SerializedCause(v, true))), ChainLength(v))
         == Object(ErrorFields(v) + CauseProp(SerializedCause(v, false)))
  {
    DropStackLevel(ErrorFields(v), Truthy(v.stack), v.stack, SerializedCause(v, true), SerializedCause(v, false), ChainLength(v));
  }

  /** The cause part of `StackOnlyStep`: stripping the serialized cause one
      level less deep than the chain gives the cause serialized without
      stacks. */
  lemma CauseStripped(v: Value)
    requires v.Err?
    requires var next := ResolveCause(v.cause);
      next.Err? ==> Exception.ErrSerializer(next, false) == DropStack(Exception.ErrSerializer(next, true), ChainLength(next))
    ensures ChainLength(v) >= 1
    ensures StrippedCause(SerializedCause(v, true), ChainLength(v) - 1) == SerializedCause(v, false)
  {
    var next := ResolveCause(v.cause);
    assert ChainLength(v) == 1 + if next.Err? then ChainLength(next) else 0;
    if !IsTruthy(next) {
      assert SerializedCause(v, true) == None && SerializedCause(v, false) == None;
    } else if next.Err? {
      assert SerializedCause(v, true) == Some(Exception.ErrSerializer(next, true));
      assert SerializedCause(v, false) == Some(Exception.ErrSerializer(next, false));
    } else {
      assert SerializedCause(v, true) == Some(next.d) && SerializedCause(v, false) == Some(next.d);
    }
  }

  /** `showStack` changes nothing but the `stack` keys: the record without
      stacks is the record with stacks, each of its chain levels stripped of
      `stack`, and the chain's end left as it is. */
  lemma {:induction false} StackOnlyDifference(v: Value)
    ensures Exception.ErrSerializer(v, false) == DropStack(Exception.ErrSerializer(v, true), ChainLength(v))
    decreases v
  {
    if v.Err? {
      var next := ResolveCause(v.cause);
      if next.Err? {
        StackOnlyDifference(next);
      }
      StackOnlyStep(v);
    }
  }

  /** The record `toObject` gives for an `Exception`: `name`, `message` and
      the cause as for any Error; never `code` or `signal`, which the class
      does not set. */
  lemma ExceptionRecord(e: Exception, showStack: bool)
    ensures e.ToObject(showStack).Object?
    ensures Get(e.ToObject(showStack), "name") == Present(e.name)
    ensures Get(e.ToObject(showStack), "message") == if e.message == "" then None else Some(Str(e.message))
    ensures Get(e.ToObject(showStack), "code") == None && Get(e.ToObject(showStack), "signal") == None
    ensures Get(e.ToObject(showStack), "stack") == if showStack then Present(e.stack) else None
    ensures Get(e.ToObject(showStack), "cause") ==
      var c := ResolveCause(e.Cause());
      if IsTruthy(c) then Some(Exception.ErrSerializer(c, showStack)) else None
  {
    var v := e.AsValue();
    assert e.ToObject(showStack) == Exception.ErrSerializer(v, showStack);
    RecordLayoutAt(v, showStack, "name");
    RecordLayoutAt(v, showStack, "message");
    RecordLayoutAt(v, showStack, "code");
    RecordLayoutAt(v, showStack, "signal");
    RecordLayoutAt(v, showStack, "stack");
    RecordLayoutAt(v, showStack, "cause");
  }

  /** `new Exception(message)` has a `message` key exactly when the message
      argument is given and is not the empty string; it is then the
      argument's string conversion. */
  lemma ConstructedMessage(m: Datum, e: Exception, showStack: bool)
    requires e.message == ErrorMessage(m)
    ensures Get(e.ToObject(showStack), "message").Some? <==> m != Undefined && m != Str("")
    ensures m.Str? && m != Str("") ==> Get(e.ToObject(showStack), "message") == Some(m)
  {
    ExceptionRecord(e, showStack);
  }
}
