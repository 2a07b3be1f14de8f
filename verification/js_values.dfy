/** Dynamically typed JavaScript values, as far as the application inspects
    them: truthiness, `typeof`, property access that yields `undefined` for
    a missing property, and the string conversion used by template literals. */
module JsValues {
  import opened Wrappers
  import opened JsNumbers

  datatype JsValue =
    | Undefined
    | Null
    | Bool(b: bool)
    | Number(n: Num)
    | Str(s: string)
    | Arr(items: seq<JsValue>)
    | Obj(props: map<string, JsValue>)

  /** A thrown error: `message` and `code` are the properties the application
      reads from it, either of which may be absent. */
  datatype JsError = JsError(message: Option<string>, code: Option<string>)

  /** An error created by `new Error(message)`: it has no code. */
  function Error(message: string): (e: JsError)
    ensures e.message == Some(message) && e.code.None?
  {
    JsError(Some(message), None)
  }

  /** A finite number. */
  function Real(r: real): JsValue {
    Number(Finite(r))
  }

  /** JavaScript's boolean coercion (`if (v)`, `!v`, `v && w`). */
  predicate Truthy(v: JsValue) {
    match v
    case Undefined => false
    case Null => false
    case Bool(b) => b
    case Number(n) => (n.Finite? && n.value != 0.0) || n.Infinite?
    case Str(s) => |s| > 0
    case Arr(_) => true
    case Obj(_) => true
  }

  /** The `typeof` operator. */
  function TypeOf(v: JsValue): string {
    match v
    case Undefined => "undefined"
    case Null => "object"
    case Bool(_) => "boolean"
    case Number(_) => "number"
    case Str(_) => "string"
    case Arr(_) => "object"
    case Obj(_) => "object"
  }

  /** `key in v` for an object: the property is present, whatever its value. */
  predicate Has(v: JsValue, key: string) {
    v.Obj? && key in v.props
  }

  /** `v[key]` on a value that is not null or undefined: `undefined` when
      the property is missing. */
  function Get(v: JsValue, key: string): (r: JsValue)
    ensures Has(v, key) ==> r == v.props[key]
    ensures !Has(v, key) ==> r == Undefined
  {
    if v.Obj? && key in v.props then v.props[key] else Undefined
  }

  /** `a[i]` on an array: `undefined` past its end. */
  function Index(items: seq<JsValue>, i: nat): (r: JsValue)
    ensures i < |items| ==> r == items[i]
    ensures i >= |items| ==> r == Undefined
  {
    if i < |items| then items[i] else Undefined
  }

  /** `String(v)`, as a template literal `${v}` writes it. */
  function ToStr(v: JsValue): string
    decreases v
  {
    match v
    case Undefined => "undefined"
    case Null => "null"
    case Bool(b) => if b then "true" else "false"
    case Number(n) => NumToStr(n)
    case Str(s) => s
    case Arr(items) => ItemsToStr(items)
    case Obj(_) => "[object Object]"
  }

  function NumToStr(n: Num): string {
    match n
    case Finite(x) => NumberToString(x)
    case Infinite(negative) => if negative then "-Infinity" else "Infinity"
    case NaN => "NaN"
  }

  /** An array is written as its elements joined by commas, with `null` and
      `undefined` elements written as empty strings. */
  function ItemsToStr(items: seq<JsValue>): string
    decreases items
  {
    if |items| == 0 then ""
    else
      var first := if items[0].Undefined? || items[0].Null? then "" else ToStr(items[0]);
      if |items| == 1 then first else first + "," + ItemsToStr(items[1..])
  }
}
