/**
 A model of the `serde_json::Value` type the program manipulates: JSON values
 whose objects are maps from keys to values and whose numbers remember whether
 they hold an integer or a floating-point value.
 */
module Json {
  import opened Wrappers

  /** Bounds of the Rust type `i64`. */
  const I64_MIN: int := -0x8000_0000_0000_0000
  const I64_MAX: int := 0x7FFF_FFFF_FFFF_FFFF

  /**
   A JSON number. `Int` is a number serde_json stores as an integer (its
   unsigned or signed 64-bit variants); `Float` is one it stores as a
   floating-point value, whose value plays no part in this model.
   */
  datatype Number = Int(value: int) | Float(text: string)

  datatype Value =
    | Null
    | Bool(b: bool)
    | Num(n: Number)
    | Str(s: string)
    | Array(elems: seq<Value>)
    | Object(fields: map<string, Value>)

  /** `Number::as_i64`: the integer when it is representable as an `i64`. */
  function AsI64(n: Number): (r: Option<int>)
    ensures r.Some? <==> n.Int? && I64_MIN <= n.value <= I64_MAX
    ensures r.Some? ==> r.value == n.value
  {
    if n.Int? && I64_MIN <= n.value <= I64_MAX then Some(n.value) else None
  }
}
