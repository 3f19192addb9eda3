/**
 * JavaScript values as the helpers see them: what they hold, when they are truthy, and the text
 * `String(v)` gives for them.  Numbers are integers here; objects are maps from keys to values.
 */
module JsValue {
  import opened JsText

  datatype Json =
    | JUndefined
    | JNull
    | JBool(b: bool)
    | JNum(n: int)
    | JStr(s: string)
    | JArr(items: seq<Json>)
    | JObj(fields: map<string, Json>)

  /** JavaScript truthiness: `undefined`, `null`, `false`, `0` and `""` are falsy, everything else is truthy */
  predicate IsTruthy(v: Json) {
    match v
    case JUndefined => false
    case JNull => false
    case JBool(b) => b
    case JNum(n) => n != 0
    case JStr(s) => s != ""
    case JArr(_) => true
    case JObj(_) => true
  }

  /** `obj[key]`: a missing key reads as `undefined` */
  function Get(fields: map<string, Json>, key: string): (r: Json)
    ensures key !in fields ==> r == JUndefined
    ensures key in fields ==> r == fields[key]
  {
    if key in fields then fields[key] else JUndefined
  }

  /** `String(v)`; an array is joined with "," and its `null`/`undefined` elements give "" */
  function ToText(v: Json): (r: string)
    decreases v, 1
  {
    match v
    case JUndefined => "undefined"
    case JNull => "null"
    case JBool(b) => if b then "true" else "false"
    case JNum(n) => IntToString(n)
    case JStr(s) => s
    case JArr(items) => JoinText(v, items)
    case JObj(_) => "[object Object]"
  }

  /** `items.join(",")` for the elements of the array `parent` */
  function JoinText(parent: Json, items: seq<Json>): (r: string)
    requires forall k :: 0 <= k < |items| ==> items[k] < parent
    decreases parent, 0, |items|
  {
    if items == [] then ""
    else
      var last := items[|items| - 1];
      var piece := if last.JUndefined? || last.JNull? then "" else ToText(last);
      if |items| == 1 then piece else JoinText(parent, items[..|items| - 1]) + "," + piece
  }
}
