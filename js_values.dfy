/** JavaScript values as the source sees them when it reads untyped JSON
    (`data`, `style`, page JSON, the fields of a parsed action), with the
    three coercions the source relies on: truthiness, `String(v)` and
    property lookup. `JSON.stringify` is a foreign call and is never
    defined here: the modules that need it take it as a parameter. */
module JsValues {
  import opened Wrappers

  /** Numbers are integers here; fractional numbers and NaN are not modelled. */
  datatype Value =
    | Undefined
    | Null
    | Bool(b: bool)
    | Num(n: int)
    | Str(s: string)
    | Arr(items: seq<Value>)
    | Obj(fields: seq<Field>)

  /** One own property of an object, in the object's key order. */
  datatype Field = Field(key: string, val: Value)

  /** JavaScript truthiness (`if (v)`, `v || w`, `!v`). */
  predicate Truthy(v: Value) {
    match v
    case Undefined => false
    case Null => false
    case Bool(b) => b
    case Num(n) => n != 0
    case Str(s) => s != ""
    case Arr(_) => true
    case Obj(_) => true
  }

  /** `v || w`. */
  function Or(v: Value, w: Value): Value {
    if Truthy(v) then v else w
  }

  /** Lookup of a property in a list of fields; the first field with that key wins. */
  function Lookup(fields: seq<Field>, key: string): Value {
    if fields == [] then Undefined
    else if fields[0].key == key then fields[0].val
    else Lookup(fields[1..], key)
  }

  /** `v[key]` (or `v?.[key]`) for a named property: only objects carry named
      properties of their own, every other value reads as `undefined`. */
  function Get(v: Value, key: string): Value {
    if v.Obj? then Lookup(v.fields, key) else Undefined
  }

  /** `===` between two values read from separately parsed JSON: primitives
      compare by value; two objects or arrays are never the same object. */
  predicate StrictEquals(x: Value, y: Value) {
    !x.Arr? && !x.Obj? && x == y
  }

  /** Decimal digits of a natural number. */
  function NatToString(n: nat): string
    decreases n
  {
    var d := ['0', '1', '2', '3', '4', '5', '6', '7', '8', '9'][n % 10];
    if n < 10 then [d] else NatToString(n / 10) + [d]
  }

  /** `String(v)`, the coercion used by template literals. */
  function ToStr(v: Value): string {
    match v
    case Undefined => "undefined"
    case Null => "null"
    case Bool(b) => if b then "true" else "false"
    case Num(n) => if n < 0 then "-" + NatToString(-n) else NatToString(n)
    case Str(s) => s
    case Arr(items) => Join(ArrayItemStrings(items), ",")
    case Obj(_) => "[object Object]"
  }

  /** The strings `Array.prototype.join` makes of array elements: `null`
      and `undefined` become empty strings. */
  function ArrayItemStrings(items: seq<Value>): seq<string> {
    if items == [] then []
    else [if items[0].Undefined? || items[0].Null? then "" else ToStr(items[0])] + ArrayItemStrings(items[1..])
  }

  /** `Object.entries(v)` for the values this model has: the fields of an
      object, the indexed elements of an array or the characters of a string. */
  function Entries(v: Value): seq<Field> {
    match v
    case Obj(fields) => fields
    case Arr(items) => seq(|items|, i requires 0 <= i < |items| => Field(NatToString(i), items[i]))
    case Str(s) => seq(|s|, i requires 0 <= i < |s| => Field(NatToString(i), Str([s[i]])))
    case _ => []
  }
}
