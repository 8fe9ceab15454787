/** The JavaScript values that can arrive in a parsed JSON request body, and the few
    operators of the language that the request handlers apply to them: truthiness
    (`!x`, `x && ...`), `typeof`, strict equality `===` and the `||` operator.
    Numbers are integers here; fractional numbers and NaN are not modelled. */
module JsValues {

  datatype JsValue =
    | Undefined          // a field absent from the body
    | Null
    | Bool(b: bool)
    | Num(n: int)
    | Str(s: string)
    | Other              // an object or an array: always truthy, `typeof` is "object"

  /** ToBoolean: the test behind `!x`, `x && y` and `x || y`. */
  predicate Truthy(v: JsValue) {
    match v
    case Undefined => false
    case Null => false
    case Bool(b) => b
    case Num(n) => n != 0
    case Str(s) => s != ""
    case Other => true
  }

  /** The `typeof` operator (note that `typeof null` is "object"). */
  function TypeOf(v: JsValue): (t: string)
    ensures t in {"undefined", "object", "boolean", "number", "string"}
    ensures t == "object" <==> v.Null? || v.Other?
  {
    match v
    case Undefined => "undefined"
    case Null => "object"
    case Bool(_) => "boolean"
    case Num(_) => "number"
    case Str(_) => "string"
    case Other => "object"
  }

  /** Strict equality `===`. Objects and arrays compare by reference; two values parsed
      from different JSON documents are never the same object, so `Other` equals nothing. */
  predicate StrictEquals(a: JsValue, b: JsValue) {
    match (a, b)
    case (Undefined, Undefined) => true
    case (Null, Null) => true
    case (Bool(x), Bool(y)) => x == y
    case (Num(x), Num(y)) => x == y
    case (Str(x), Str(y)) => x == y
    case _ => false
  }

  /** The `||` operator: the left operand when it is truthy, otherwise the right one. */
  function Or(a: JsValue, b: JsValue): (r: JsValue)
    ensures r == a || r == b
    ensures Truthy(r) <==> Truthy(a) || Truthy(b)
  {
    if Truthy(a) then a else b
  }

  /** Exactly five values are falsy. */
  lemma FalsyValues(v: JsValue)
    ensures !Truthy(v) <==> v in {Undefined, Null, Bool(false), Num(0), Str("")}
  {
  }

  /** `===` identifies equal primitive values and only those; in particular `null`
      and `undefined` are different under `===` (unlike under loose equality `==`). */
  lemma StrictEqualsIsIdentityOnPrimitives(a: JsValue, b: JsValue)
    ensures StrictEquals(a, b) <==> a == b && !a.Other?
    ensures !StrictEquals(Null, Undefined) && !StrictEquals(Undefined, Null)
  {
  }
}
