/** JavaScript values as the screens' keying code sees them: what counts as
    truthy, and the text a value contributes to a template string. */
module JsValues {
  import opened Text

  /** A number, a string, or `null`/`undefined`. */
  datatype JsVal = Num(n: nat) | Str(s: string) | Undefined

  /** `!!v`: zero, the empty string and `undefined` are falsy. */
  predicate Truthy(v: JsVal)
  {
    match v
    case Num(n) => n != 0
    case Str(s) => s != ""
    case Undefined => false
  }

  /** `${v}` and `v.toString()` for a number or a string. */
  function KeyText(v: JsVal): string
  {
    match v
    case Num(n) => NatToString(n)
    case Str(s) => s
    case Undefined => "undefined"
  }
}
