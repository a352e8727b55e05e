/**
  Values as the route handlers and validators receive them from a parsed
  request body, reduced to what the modelled code distinguishes.
 */
module JsValues {

  /** A property that may be absent (`undefined`) on a request body. */
  datatype Option<+T> = None | Some(value: T)

  /**
    A JavaScript value held by a property of an input record. Numbers are
    modelled as integers; an object is known only by its own keys, which is
    all that an emptiness test looks at.
   */
  datatype Value =
    | Undefined
    | Null
    | Bool(b: bool)
    | Num(n: int)
    | Str(s: string)
    | Obj(keys: set<string>)

  /** Property lookup: a missing property reads as `undefined`. */
  function Get(fields: map<string, Value>, key: string): Value
  {
    if key in fields then fields[key] else Undefined
  }
}
