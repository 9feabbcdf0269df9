/**
  The JavaScript values that reach Dialog.show, with the three language operations the
  controller applies to them: truthiness (`if (x)`, `x && …`), `typeof`, and the string
  conversion a template literal `${x}` performs.
 */
module JsValues {
  import opened Text

  /**
    A JavaScript value. Numbers are integral. An object is its enumerable properties in
    for-in order (key, value); a function is known by its source text, which is what
    `${f}` prints.
   */
  datatype Value =
    | Undefined
    | Null
    | Bool(b: bool)
    | Num(n: int)
    | Str(s: string)
    | Obj(props: seq<(string, Value)>)
    | Func(source: string)

  /** ToBoolean: undefined, null, false, 0 and "" are falsy, everything else truthy. */
  predicate Truthy(v: Value) {
    match v
    case Undefined => false
    case Null => false
    case Bool(b) => b
    case Num(n) => n != 0
    case Str(s) => s != ""
    case Obj(_) => true
    case Func(_) => true
  }

  /** The `typeof` operator; note that `typeof null` is "object". */
  function TypeOf(v: Value): string {
    match v
    case Undefined => "undefined"
    case Null => "object"
    case Bool(_) => "boolean"
    case Num(_) => "number"
    case Str(_) => "string"
    case Obj(_) => "object"
    case Func(_) => "function"
  }

  /**
    The text a template literal makes of a value. An object always gives
    "[object Object]": a toString method of its own or an inherited one is not run.
   */
  function ToStr(v: Value): string {
    match v
    case Undefined => "undefined"
    case Null => "null"
    case Bool(b) => if b then "true" else "false"
    case Num(n) => IntText(n)
    case Str(s) => s
    case Obj(_) => "[object Object]"
    case Func(source) => source
  }
}
