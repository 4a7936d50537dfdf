/** The `Exception` class: an Error with a cause fixed at construction,
    and the static serializer that turns an Error chain into nested plain
    records and returns any other value as it is. */
module Exceptions {
  import opened JsValues

  /** The cause an `Exception` gets when none is given: `null`. */
  const NullCause: CauseSlot := Eager(NonError(Null))

  /** What `_cause` can hold: the default parameter turns `undefined` into
      `null`, so the eager value `undefined` never gets there. */
  type StoredCause = c: CauseSlot | c != Eager(NonError(Undefined)) witness Eager(NonError(Null))

  /** The cause the serializer goes on with. A function-valued cause is
      called; a call that throws is swallowed and reads as `null`. */
  function ResolveCause(c: CauseSlot): (r: Value)
    ensures c == Lazy(Throws) ==> r == NonError(Null)
    ensures c.Eager? ==> r == c.value
    ensures c.Lazy? && c.outcome.Returns? ==> r == c.outcome.result
    ensures IsTruthy(r) ==> r < c
  {
    match c
    case Eager(v) => v
    case Lazy(Returns(v)) => v
    case Lazy(Throws) => NonError(Null)
  }

  class Exception {
    /** Inherited from the Error prototype unless a subclass overrides it. */
    const name: Datum
    /** What the Error constructor stored for the `message` argument. */
    const message: string
    /** Captured by the runtime when the object is created. */
    const stack: Datum
    /** The `_cause` field, set by the constructor; later writes to it are
        not modelled. */
    const storedCause: StoredCause

    /** `new Exception(message, cause)`. An omitted or `undefined` cause
        becomes `null`, as a default parameter does. `name` and `stack` are
        what the runtime supplies. */
    constructor (message: Datum := Undefined, cause: CauseSlot := NullCause,
                 name: Datum := Str("Error"), stack: Datum)
      ensures this.message == ErrorMessage(message)
      ensures this.name == name && this.stack == stack
      ensures Cause() == if cause == Eager(NonError(Undefined)) then NullCause else cause
    {
      this.name := name;
      this.message := ErrorMessage(message);
      this.stack := stack;
      this.storedCause := if cause == Eager(NonError(Undefined)) then NullCause else cause;
    }

    /** The `cause` getter: the stored `_cause`, which is never the value
        `undefined`. */
    function Cause(): (c: CauseSlot)
      ensures c == storedCause
      ensures c != Eager(NonError(Undefined))
    {
      storedCause
    }

    /** This object as the serializer reads it: an Error whose `code` and
        `signal` are absent and whose `cause` property is the getter. */
    function AsValue(): Value
    {
      Err(name, Str(message), Undefined, Undefined, stack, Cause())
    }

    /** `toObject(showStack = true)`. */
    function ToObject(showStack: bool := true): (r: Datum)
      ensures r == ErrSerializer(AsValue(), showStack)
      ensures r.Object?
    {
      ErrSerializer(AsValue(), showStack)
    }

    /** `toJSON(key)`: the hook `JSON.stringify` calls; the key is ignored
        and the stack is shown. */
    function ToJSON(key: string): (r: Datum)
      ensures r == ToObject(true)
    {
      ToObject()
    }

    /** `Exception.errSerializer(err, showStack = true)`. A value that is
        not an Error comes back as it is. An Error becomes a fresh plain
        object that gets, in this order and only when truthy, `name`,
        `message`, `code`, `signal`, `stack` (when `showStack`), and the
        serialized resolved cause. */
    static function ErrSerializer(err: Value, showStack: bool := true): (r: Datum)
      ensures err.NonError? ==> r == err.d
      ensures err.Err? ==> r.Object?
      decreases err
    {
      if err.NonError? then err.d
      else
        var o := SetIf(ErrorFields(err), showStack && Truthy(err.stack), "stack", err.stack);
        var cause := ResolveCause(err.cause);
        if IsTruthy(cause) then Object(o + [Prop("cause", ErrSerializer(cause, showStack))])
        else Object(o)
    }
  }

  /** The first part of the record built for an Error: its truthy `name`,
      `message`, `code` and `signal`, in that order. Only truthy values are
      copied, and neither `stack` nor `cause` is set here. */
  function ErrorFields(err: Value): (o: seq<Prop>)
    requires err.Err?
    ensures |o| <= 4
    ensures forall i :: 0 <= i < |o| ==> Truthy(o[i].val)
    ensures forall i :: 0 <= i < |o| ==> o[i].key != "stack" && o[i].key != "cause"
  {
    var o1 := SetIf([], Truthy(err.name), "name", err.name);
    var o2 := SetIf(o1, Truthy(err.message), "message", err.message);
    var o3 := SetIf(o2, Truthy(err.code), "code", err.code);
    SetIf(o3, Truthy(err.signal), "signal", err.signal)
  }

  /** The example of a two-level chain: an outer "disk full" Exception
      caused by an inner "permission denied" one, serialized without
      stacks. Both carry the inherited name "Error". */
  method DiskFullExample(outerStack: Datum, innerStack: Datum) returns (r: Datum)
    ensures r == Object([Prop("name", Str("Error")), Prop("message", Str("disk full")),
                         Prop("cause", Object([Prop("name", Str("Error")),
                                               Prop("message", Str("permission denied"))]))])
  {
    var inner := new Exception(Str("permission denied"), stack := innerStack);
    var innerObject := Exception.ErrSerializer(inner.AsValue(), false);
    assert innerObject == Object([Prop("name", Str("Error")), Prop("message", Str("permission denied"))]);
    var outer := new Exception(Str("disk full"), Eager(inner.AsValue()), stack := outerStack);
    r := outer.ToObject(false);
  }
}
