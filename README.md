# Exception: a chained Error and its serializer

This models `lib/Exception.js`. That file defines an `Exception` class. An
`Exception` extends the native `Error` with a cause, and the cause is fixed
when the object is built. The class has a static `errSerializer`. It turns
an Error and its chain of causes into a chain of fresh plain records nested
through their `cause` keys, one record per Error of the chain:

- A value that is not an Error comes back as it is, by reference. A plain
  object is not searched for Errors inside it.
- An Error becomes a new plain object. The object gets `name`, `message`,
  `code` and `signal` when they are truthy, and `stack` when asked for.
- The cause of the Error is then resolved and serialized the same way, one
  level deeper.

The model has three modules:

- `JsValues` (`js_values.dfy`) holds the JavaScript values involved.
  - `Datum` is any value that is not an Error: `undefined`, `null`, booleans,
    the safe integers (magnitude at most 2^53 - 1), `NaN`, strings and plain
    objects. A plain object is the list of its own properties. The
    serializer passes plain objects through unchanged, so JavaScript's key
    order (integer-like keys first) and its rule against duplicate keys are
    not modelled.
  - `Value` is `NonError(d)` or `Err(name, message, code, signal, stack,
    cause)`. This is how `instanceof Error` splits all values.
  - `CauseSlot` is what the `cause` property holds. It is `Eager(v)` for a
    value that is not a function. It is `Lazy(Returns(v))` or `Lazy(Throws)`
    for a zero-argument function. The call's outcome is decided in advance.
  - `Truthy` is JavaScript truthiness. `ErrorMessage` is the string that the
    `Error` constructor stores for its `message` argument.
- `Exceptions` (`exceptions.dfy`) holds the class `Exception`.
  - Its fields are `const`. The model assumes that no code reassigns them
    after the constructor. This covers `_cause` (here `storedCause`), and
    also the inherited `name`, `message` and `stack`. JavaScript does not
    enforce it: these are ordinary writable properties, and
    `lib/Exception.js` does not freeze them.
  - It has the `cause` getter, `toObject`, `toJSON` and the static
    `ErrSerializer`.
  - `ResolveCause` models how the serializer resolves a cause, including a
    call that throws.
- `SerializerProperties` (`serializer_properties.dfy`) holds what the
  serializer promises, proved as lemmas.
  - `ExpectedField` describes the record key by key, as a reference.
  - `ChainLength`, `ChainAt` and `ChainEnd` walk the chain of causes on the
    input side. `CauseAt` walks the nested `cause` keys on the output side.
  - `DropStack` strips the `stack` keys from the records of a chain.

The serializer is a total function, and its result type has no error case.
This matches the source for data properties: a lazy cause that throws is
caught (lib/Exception.js:92-96) and reads as `null`. Only that call is inside
the `try`. The model does not cover a property read that throws, or a chain
deep enough to overflow the JavaScript call stack (see "## Left out").

Behaviour the model takes from the code, not from the comments in it:

- The doc comment on `errSerializer` (lib/Exception.js:60) says that
  `undefined` and `null` fields are skipped. The code skips every falsy
  value: `""`, `0`, `NaN` and `false` as well. The model follows the code.
- `name` is inherited from `Error.prototype` and is the truthy `"Error"`.
  So the record for an `Exception` always starts with `name: "Error"`:
  `new Exception("disk full", new Exception("permission denied")).toObject(false)`
  is `{name: "Error", message: "disk full", cause: {name: "Error", message: "permission denied"}}`.
  See `DiskFullExample`.
- `super(message)` turns any given message into a string. So
  `new Exception(0)` and `new Exception(null)` do have a `message` key
  (`"0"` and `"null"`). Among the values the model represents, only an
  omitted or `undefined` message has none, and so does `""`. An array is not
  represented: `String([])` is `""`, so `new Exception([])` has no `message`
  key either.
- The cause parameter defaults to `null`. A JavaScript default parameter
  also applies when `undefined` is passed explicitly, so
  `new Exception(m, undefined).cause` is `null`.

Modelling assumptions:

- A `Value` is a finite, inductive datatype, so a cause chain is always
  acyclic and ends. The source has no guard against a cycle
  (lib/Exception.js:98-100). On a cyclic chain it would recurse until the
  stack overflows. The model cannot build such a chain.
- An inner `Exception` is passed as a cause by its value (`AsValue()`). This
  agrees with JavaScript only while no field of the inner `Exception` is
  reassigned after construction, which is the assumption above.

## Model

| member | source | states |
|---|---|---|
| `JsValues.ErrorMessage` | lib/Exception.js:17-18 | The message passed to `super` is stored as the empty string exactly when it is omitted/`undefined` or is `""`; a string message is stored unchanged; `null`, booleans, `NaN` and plain objects become `"null"`, `"true"`/`"false"`, `"NaN"` and `"[object Object]"`; a number becomes its decimal form by `IntToString` |
| `JsValues.IntToString` | lib/Exception.js:18 | `String(n)` of a safe integer: a leading `-` exactly when `n` is negative, then decimal digits without a leading zero that denote the magnitude of `n` |
| `JsValues.NatToString` | lib/Exception.js:18 | The decimal digits of a non-negative integer: at least one digit, no leading zero, and their value is exactly `n` |
| `Exceptions.ResolveCause` | lib/Exception.js:89-97 | A plain cause is used as it is; a function-valued cause is replaced by what its call returns; a call that throws yields `null`; a truthy resolved cause is structurally smaller than the slot (so serialization terminates on every finite chain) |
| `Exceptions.Exception.constructor` | lib/Exception.js:17-20 | The getter afterwards returns exactly the cause given, and `null` when it is omitted or `undefined`; the message is the Error constructor's string conversion of the argument |
| `Exceptions.Exception.Cause` | lib/Exception.js:27-29 | The getter returns the stored `_cause`, which is never `undefined` (with the constructor's contract: the given cause, or `null` in its place) |
| `Exceptions.ErrorFields` | lib/Exception.js:70-82 | The first part of a record holds at most the four fields, only truthy values, and never `stack` or `cause`; `ErrorFieldsLayout` states which key holds which value |
| `Exceptions.Exception.ToObject` | lib/Exception.js:51-53 | `toObject(showStack)` is `errSerializer(this, showStack)` (`showStack` defaulting to true) and is always a record |
| `Exceptions.Exception.ToJSON` | lib/Exception.js:41-43 | `toJSON(key)` is `toObject(true)` whatever the key |
| `Exceptions.Exception.ErrSerializer` | lib/Exception.js:66-70 | A value that is not an Error is returned unchanged whatever `showStack` is; an Error always becomes a plain object |
| `Exceptions.DiskFullExample` | lib/Exception.js:17-53 | Serializing a two-level chain of `Exception`s without stacks gives exactly the nested record with inherited names and both messages, and no other keys |
| `SerializerProperties.ErrorFieldsLayout` | lib/Exception.js:70-82 | The first part of the record holds `name`, `message`, `code`, `signal` exactly when truthy, each with the Error's own value, in that order, and no `stack` or `cause` |
| `SerializerProperties.RecordLayoutAt` | lib/Exception.js:70-101 | Every key of an Error's record is what the key-by-key reference says: the four fields exactly when truthy and with the same value (falsy ones absent, never `null`), `stack` exactly when `showStack` and the stack is truthy, `cause` exactly when the resolved cause is truthy and then equal to its serialization with the same flag; the keys are drawn from name, message, code, signal, stack, cause, in that order and without repetition |
| `SerializerProperties.ThrowingCauseSwallowed` | lib/Exception.js:89-97 | A function-valued cause that throws gives the same record as a `null` cause, and that record has no `cause` key |
| `SerializerProperties.LazyCauseResolved` | lib/Exception.js:90-93 | A function-valued cause that returns `v` gives the same record as the plain cause `v` |
| `SerializerProperties.CauseKey` | lib/Exception.js:98-100 | `o.cause` is present exactly when the resolved cause is truthy and then equals the serialization of that cause with the same `showStack`; a truthy non-Error cause appears verbatim |
| `SerializerProperties.ChainLevel` | lib/Exception.js:98-100 | Following the output's `cause` keys k times, for each k below the number of Errors in the chain, reaches a record: the serialization of the chain's k-th Error |
| `SerializerProperties.ChainEndLevel` | lib/Exception.js:98-100 | One step past the last Error's record there is exactly the chain's end: the truthy non-Error copied verbatim, or nothing when the last resolved cause is falsy, so a chain of n Errors ending in a falsy cause nests exactly n records |
| `SerializerProperties.InnermostCause` | lib/Exception.js:98-100 | A chain of n >= 1 Errors yields n nested records; the innermost has a `cause` key exactly when the chain ends in a truthy non-Error, which appears there verbatim, and has none when the chain ends in a falsy cause |
| `SerializerProperties.LastLink` | lib/Exception.js:89-100 | The last Error of a chain resolves its cause to a non-Error, and the chain ends with that value exactly when it is truthy |
| `SerializerProperties.HiddenStackNowhere` | lib/Exception.js:83-88 | With `showStack` false, no record at any level of the chain has a `stack` key |
| `SerializerProperties.StackOnlyDifference` | lib/Exception.js:83-99 | The output without stacks equals the output with stacks after removing `stack` from each record of the chain, down to the chain's length, so the flag changes nothing else and is passed to every level |
| `SerializerProperties.ExceptionRecord` | lib/Exception.js:17-53 | `toObject` of an `Exception` has its truthy inherited name, its message exactly when non-empty, never `code` or `signal`, the stack only when asked for and truthy, and the serialized resolved value of the getter's cause exactly when that is truthy |
| `SerializerProperties.ConstructedMessage` | lib/Exception.js:17-18 | An `Exception` built with message argument `m` has a `message` key exactly when `m` is neither omitted/`undefined` nor `""`; a non-empty string message appears unchanged |

## Left out

- Stack traces: the runtime captures `stack`. It is a constructor parameter
  here, and the serializer treats it as an opaque value.
- The value of `name`: it is inherited from `Error.prototype`, outside this
  file. The constructor takes it as a parameter whose default is `"Error"`.
- `code` and `signal` on an `Exception`: the model's class never has
  them. A caller in JavaScript may add them after construction; the model
  covers this only through general Error values (`Err`).
- The side effects and non-determinism of a user-supplied cause function:
  each call is an outcome fixed in advance (`Returns(v)` or `Throws`).
- Function values in other positions: a plain function can be a field
  value, or the value a lazy cause returns (serialized verbatim, not called
  again). Neither is representable. Non-integer numbers are left out too,
  because floating point is outside the model.
- Symbols and BigInts: `Datum` cannot represent them. A Symbol message
  argument makes `super(message)` throw a `TypeError`, and a BigInt would
  convert to its decimal digits.
- `Object(...)` message arguments convert with the default
  `Object.prototype.toString`; a custom `toString` is user code and is not
  modelled.
- `instanceof` and prototype chains: the datatype tag `Err` or `NonError`
  stands for them.
- How `JSON.stringify` finds and calls `toJSON`, and the JSON text it
  writes. A round trip through JSON text is therefore not stated.
- `module.exports` (lib/Exception.js:106): module wiring.
- `JsValues.ErrorMessage`: numbers are the safe integers only, with
  magnitude at most 2^53 - 1. `String` prints them in plain decimal form. A
  larger integer (exponent form from 1e21 on), a fraction and `Infinity` are
  not represented. `-0` is represented by `Num(0)`: `String(-0)` is `"0"`
  and both are falsy.
- `JsValues.ErrorMessage`: a plain object with an own `toString` key gives
  `"[object Object]"` in the model. In JavaScript that property is not a
  function (the model holds no functions), and the inherited `valueOf`
  returns the object itself. So the string conversion in `super(message)`
  (lib/Exception.js:18) throws a `TypeError`, and the constructor throws.
- Arrays: not represented. An array is a truthy object, so it is copied
  verbatim as a field value or as a cause. As a message argument, `String`
  joins its elements with commas (`String([])` is `""`).
- Errors in other positions: `Datum` holds no Error. The source copies an
  Error that sits in `name`, `message`, `code`, `signal` or `stack`, or
  inside a plain-object cause, by reference without serializing it. The
  result is then not all plain data, and the model does not cover that case.
- Property reads that throw: the reads of `name`, `message`, `code`,
  `signal` and `stack` (lib/Exception.js:71-86), and the first read of
  `cause` (line 89), are outside the `try`. A throwing accessor, such as a
  subclass that overrides `get cause()`, makes `errSerializer` throw. Every
  property here is plain data.
- Recursion depth: each Error of the chain adds a JavaScript call
  (lib/Exception.js:99), so a long enough finite chain overflows the call
  stack. The model's recursion is unbounded.
- `showStack` is a `bool`. JavaScript tests it for truthiness, and its
  default applies only to `undefined`: `toObject(null)` hides the stack,
  while `toObject(undefined)` shows it.
- The second read of a function-valued `cause` (lib/Exception.js:93) is
  assumed to give the same function as the first.
- Cyclic cause chains: the source does not guard against them and would not
  terminate. The inductive datatype excludes them (see above).
- Aliasing and later writes: an `Exception` used as the cause of another is
  shared by reference in JavaScript and passed by value here. The model
  assumes that no field is reassigned after construction. JavaScript allows
  it: after `inner.message = "x"`, the outer's `toObject(false).cause.message`
  is `"x"`, while the model keeps the message given at construction.
- `Exceptions.Exception.Cause`: the promise that the getter never returns
  `undefined` rests on the same assumption. A write such as
  `e._cause = undefined` makes the JavaScript getter return `undefined`.
