/** The value `JSON.parse` returns, as far as the extension inspects it. Parsing itself
    is not modelled: callers receive an already parsed value. */
module Json {
  import opened Wrappers
  import Text

  /** A parsed JSON value. Numbers are integers here (line numbers and the like);
      an object's members are unique, as `JSON.parse` keeps the last duplicate. */
  datatype Json =
    | JNull
    | JBool(b: bool)
    | JNumber(n: int)
    | JString(s: string)
    | JArray(items: seq<Json>)
    | JObject(fields: map<string, Json>)

  /** JavaScript truthiness of a JSON value (`NaN` does not occur in JSON). */
  predicate Truthy(v: Json) {
    !(v.JNull? || v == JBool(false) || v == JNumber(0) || v == JString(""))
  }

  /** `v.name` for a named (non-index) property; `None` is `undefined`. */
  function Field(v: Json, name: string): (r: Option<Json>)
    ensures r.Some? ==> v.JObject? && name in v.fields && r.value == v.fields[name]
  {
    if v.JObject? && name in v.fields then Some(v.fields[name]) else None
  }

  /** `v[String(n)]`: an object member, an array element or a character of a string. */
  function Index(v: Json, n: nat): Option<Json> {
    match v
    case JObject(m) => if Text.NatToString(n) in m then Some(m[Text.NatToString(n)]) else None
    case JArray(items) => if n < |items| then Some(items[n]) else None
    case JString(s) => if n < |s| then Some(JString([s[n]])) else None
    case _ => None
  }

  /** `${v}` in a template literal: JavaScript's `String(v)`. */
  function Render(v: Json): string
    decreases v
  {
    match v
    case JNull => "null"
    case JBool(b) => if b then "true" else "false"
    case JNumber(n) => Text.IntToString(n)
    case JString(s) => s
    case JArray(items) => RenderItems(v, items)
    case JObject(_) => "[object Object]"
  }

  /** `Array.prototype.toString`: elements joined by commas, `null` shown as nothing. */
  function RenderItems(parent: Json, items: seq<Json>): string
    requires forall i :: 0 <= i < |items| ==> items[i] < parent
    decreases parent, |items|
  {
    if items == [] then ""
    else
      var head := if items[0].JNull? then "" else Render(items[0]);
      if |items| == 1 then head else head + "," + RenderItems(parent, items[1..])
  }

  /** `${x}` for a property read that may be `undefined`. */
  function RenderOpt(v: Option<Json>): string {
    match v
    case None => "undefined"
    case Some(j) => Render(j)
  }
}
