/** Query objects as JavaScript hands them over, and the names both parsers look for. */
module FilterInput {
  import opened Prelude
  import opened Bytes
  import opened Value
  import Varint

  /**
    A number as both parsers sort it: a whole number of magnitude below 9e15, any other
    finite double, or not finite.  A double is its eight bytes.
  */
  datatype Number =
    | Whole(i: Varint.I64)
    | Fraction(bits: seq<Byte>)
    | NotFinite(bits: seq<Byte>, nan: bool)

  /** A JavaScript value without `undefined`; `Other` is a function, symbol or big integer. */
  datatype Js =
    | JsNull
    | JsBool(b: bool)
    | JsNumber(n: Number)
    | JsString(s: seq<Byte>)
    | JsArray(items: seq<Js>)
    | JsObject(props: seq<Prop>)
    | JsOther(truthy: bool)

  /** Own properties in enumeration order. */
  datatype Prop = Prop(key: seq<Byte>, value: Js)

  predicate Truthy(v: Js) {
    match v
    case JsNull => false
    case JsBool(b) => b
    case JsNumber(n) => !(n.Whole? && n.i == 0) && !(n.NotFinite? && n.nan)
    case JsString(s) => s != []
    case JsArray(_) => true
    case JsObject(_) => true
    case JsOther(t) => t
  }

  /** What a key of a filter object is. */
  datatype Key = AndKey | OrKey | NotKey | UnknownKey | FieldKey

  function Ascii(s: string): seq<Byte> {
    seq(|s|, i requires 0 <= i < |s| => if s[i] < 128 as char then s[i] as int else 0)
  }

  /** What a key of an operator object is. */
  datatype Operator =
    | OpEq | OpNe | OpGt | OpGte | OpLt | OpLte | OpContains | OpStartsWith | OpIn | OpNin | OpExists | OpUnknown

  const MAX_NESTING: nat := 32
}
