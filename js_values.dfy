/**
 * The JavaScript values that reach the strategy: constructor arguments,
 * option properties, cookie values, error objects, sessions and users.
 * Numbers are modelled as integers; a plain object is modelled by its own
 * enumerable properties.
 */
module JsValues {

  datatype JsValue =
    | Undefined
    | Null
    | Bool(b: bool)
    | Num(n: int)
    | Str(s: string)
    | Func(id: nat)
    | Obj(props: map<string, JsValue>)

  /** JavaScript's ToBoolean: the values `if (v)` and `!v` test. */
  predicate Truthy(v: JsValue) {
    match v
    case Undefined => false
    case Null => false
    case Bool(b) => b
    case Num(n) => n != 0
    case Str(s) => s != ""
    case Func(_) => true
    case Obj(_) => true
  }

  /** The value of `a || b`: the left operand when it is truthy, else the right one. */
  function Or(a: JsValue, b: JsValue): (r: JsValue)
    ensures Truthy(r) <==> Truthy(a) || Truthy(b)
    ensures Truthy(a) ==> r == a
    ensures !Truthy(a) ==> r == b
  {
    if Truthy(a) then a else b
  }

  /**
   * The property read `v.key` on a value that is neither undefined nor null
   * (on those JavaScript throws). Only objects carry the properties the
   * strategy reads; on a primitive or a function they are undefined.
   */
  function Get(v: JsValue, key: string): (r: JsValue)
    requires v != Undefined && v != Null
    ensures v.Obj? && key in v.props ==> r == v.props[key]
    ensures !(v.Obj? && key in v.props) ==> r == Undefined
  {
    if v.Obj? && key in v.props then v.props[key] else Undefined
  }

  /** JavaScript's ToString of a falsy value (integers only: the falsy number is 0). */
  function FalsyText(v: JsValue): (r: string)
    requires !Truthy(v)
    ensures v.Str? ==> r == v.s
  {
    match v
    case Undefined => "undefined"
    case Null => "null"
    case Bool(_) => "false"
    case Num(_) => "0"
    case Str(s) => s
  }
}
