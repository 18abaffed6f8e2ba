/**
 * The JavaScript values the data layer handles: what `JSON.parse` can return,
 * what a property read or an argument can be (possibly `undefined`), and the
 * error values the layer throws.
 */
module Json {

  /** A value produced by `JSON.parse`. JSON numbers are modelled as integers:
      the only number the data layer reads is a millisecond timestamp. */
  datatype Value =
    | Null
    | Bool(b: bool)
    | Num(n: int)
    | Str(s: string)
    | Arr(elems: seq<Value>)
    | Obj(fields: map<string, Value>)

  /** An argument or a property read: either `undefined` or a value. */
  datatype Arg = Undefined | Defined(value: Value)

  /** An exception: its `name` and its `message`. */
  datatype Fault = Fault(name: string, message: string)

  /** The outcome of an operation that either returns a value or throws. */
  datatype Result<+T> = Ok(value: T) | Err(fault: Fault)

  /** `new Error(message)`. */
  function Error(message: string): Fault
  {
    Fault("Error", message)
  }

  /** `v[key]` for a value that is not null, for the keys the data layer
      reads (`id`, `description`, `completed`, `createdAt`): an object gives
      its own field, and every other value has no such property and gives
      `undefined`. Built-in properties such as an array's or a string's
      `length` are not modelled. */
  function Prop(v: Value, key: string): (a: Arg)
    ensures a.Defined? <==> v.Obj? && key in v.fields
    ensures a.Defined? ==> a.value == v.fields[key]
  {
    match v
    case Obj(fields) => if key in fields then Defined(fields[key]) else Undefined
    case _ => Undefined
  }

  /** The `typeof` operator. */
  function TypeOf(a: Arg): string
  {
    match a
    case Undefined => "undefined"
    case Defined(Null) => "object"
    case Defined(Bool(_)) => "boolean"
    case Defined(Num(_)) => "number"
    case Defined(Str(_)) => "string"
    case Defined(Arr(_)) => "object"
    case Defined(Obj(_)) => "object"
  }

  /** JavaScript truthiness, as used by `!x` and `x && y`. */
  predicate Truthy(a: Arg)
  {
    match a
    case Undefined => false
    case Defined(Null) => false
    case Defined(Bool(b)) => b
    case Defined(Num(n)) => n != 0
    case Defined(Str(s)) => s != ""
    case Defined(Arr(_)) => true
    case Defined(Obj(_)) => true
  }
}
