/**
 * The JavaScript values that request bodies, token payloads and chart items
 * carry, with the truthiness that the handlers' `if (!x)` guards and `a || b`
 * defaults test. Numbers are integers here: every number these handlers see
 * is an id, a count or a time in seconds.
 */
module JsValues {

  datatype JsValue = Undefined | Null | Bool(b: bool) | Num(n: int) | Str(s: string) | Object

  /** What `if (v)` accepts: everything except undefined, null, false, 0 and the empty string. */
  predicate Truthy(v: JsValue) {
    match v
    case Undefined => false
    case Null => false
    case Bool(b) => b
    case Num(n) => n != 0
    case Str(s) => s != []
    case Object => true
  }

  /** `a || b`: `a` itself when it is truthy, otherwise `b`. */
  function Or(a: JsValue, b: JsValue): JsValue {
    if Truthy(a) then a else b
  }

  /**
   * `a === b` between two values of one parsed JSON body: primitives compare
   * by value, and two objects from the parser are never the same object.
   */
  function StrictEquals(a: JsValue, b: JsValue): (r: bool)
    ensures r ==> a == b
    ensures a == b && !a.Object? ==> r
  {
    !a.Object? && a == b
  }
}
