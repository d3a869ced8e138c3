/** JavaScript values as the request-gating middleware sees them, and the
    response shapes it produces. */
module Js {

  datatype Option<+T> = None | Some(value: T)

  /** A top-level value of a decoded request body, a route parameter or a
      user record field. Nested objects and arrays are never looked into by
      the middleware; they are represented only by their identity, so that
      `===` on them is reference equality. JavaScript numbers are modelled
      by integers. */
  datatype JsValue =
    | Undefined
    | Null
    | Bool(b: bool)
    | Num(n: int)
    | Str(s: string)
    | Compound(identity: nat)

  /** JavaScript truthiness: `undefined`, `null`, `false`, `0` and `''` are
      falsy, everything else (including every object) is truthy. */
  predicate Truthy(v: JsValue) {
    match v
    case Undefined => false
    case Null => false
    case Bool(b) => b
    case Num(n) => n != 0
    case Str(s) => s != ""
    case Compound(_) => true
  }

  /** `a || b` on JavaScript values: the first operand if it is truthy,
      otherwise the second. */
  function Or(a: JsValue, b: JsValue): (r: JsValue)
    ensures Truthy(r) <==> Truthy(a) || Truthy(b)
    ensures Truthy(a) ==> r == a
    ensures !Truthy(a) ==> r == b
  {
    if Truthy(a) then a else b
  }

  /** A property that is a string or `undefined` (`None`). */
  function OfString(v: Option<string>): JsValue {
    if v.Some? then Str(v.value) else Undefined
  }

  /** A property that is a number or `undefined` (`None`). */
  function OfInt(v: Option<int>): JsValue {
    if v.Some? then Num(v.value) else Undefined
  }

  /** `obj[key]` on a plain object: `undefined` when the key is absent. */
  function Get(obj: map<string, JsValue>, key: string): JsValue {
    if key in obj then obj[key] else Undefined
  }

  /** Extra fields a failure envelope may carry besides `success` and
      `message`. */
  datatype Extra = NoExtra | MissingFields(fields: seq<string>) | RetryAfter(seconds: int)

  /** What a middleware does with a request: call `next()`, call
      `next(error)` (forward the error to the transport's own handler), or
      end the request with `{success: false, message, ...extra}`. */
  datatype Outcome =
    | Next
    | Forward
    | Respond(status: int, message: string, extra: Extra)
}
