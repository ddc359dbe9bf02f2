/**
 * The JavaScript value semantics the source leans on: optional values,
 * thrown-or-returned results, and the truthiness test behind `if (x)` and
 * `x || fallback`.
 */
module Js {

  datatype Option<T> = None | Some(value: T)

  /** A call that either returns a value or throws an error with a message. */
  datatype Result<T> = Ok(value: T) | Err(message: string)

  /**
   * A JSON value as it arrives in a request body field. Strings and lists of
   * strings are what the clients send; the other shapes are what a hand-made
   * request could put there.
   */
  datatype JsValue =
    | Undefined
    | Null
    | Bool(b: bool)
    | Num(n: int)
    | Str(s: string)
    | StrList(items: seq<string>)

  /** JavaScript truthiness: `""`, `0`, `false`, `null` and `undefined` are falsy; every array is truthy. */
  predicate Truthy(v: JsValue) {
    match v
    case Undefined => false
    case Null => false
    case Bool(b) => b
    case Num(n) => n != 0
    case Str(s) => s != ""
    case StrList(_) => true
  }

  /** Truthiness of an optional string (`null`/absent or a string). */
  predicate Present(s: Option<string>) {
    s.Some? && s.value != ""
  }

  /** `s || fallback` on an optional string. */
  function OrElse(s: Option<string>, fallback: string): (r: string)
    ensures Present(s) ==> r == s.value
    ensures !Present(s) ==> r == fallback
  {
    if Present(s) then s.value else fallback
  }
}
