/** The part of a JSON document value (serde_json's `Value`) that window snapshot building
    reads: indexing by key and the `as_str`, `as_i64` and `as_array` views. */
module Json {
  import opened Wrappers

  const I64_MIN: int := -0x8000_0000_0000_0000
  const I64_MAX: int := 0x7FFF_FFFF_FFFF_FFFF

  /** Integer numbers keep their exact value; other numbers are floats, kept as text. Object
      keys are unique. */
  datatype Value =
    | Null
    | Bool(b: bool)
    | Int(i: int)
    | Float(repr: string)
    | Str(s: string)
    | Array(items: seq<Value>)
    | Object(fields: map<string, Value>)

  /** `value[key]`: the field's value, or `Null` when the key is missing or `v` is not an
      object. */
  function Index(v: Value, key: string): (r: Value)
    ensures v.Object? && key in v.fields ==> r == v.fields[key]
    ensures !(v.Object? && key in v.fields) ==> r == Null
  {
    if v.Object? && key in v.fields then v.fields[key] else Null
  }

  /** The text of a string value; None for every other kind of value. */
  function AsStr(v: Value): (r: Option<string>)
    ensures r.Some? <==> v.Str?
    ensures r.Some? ==> r.value == v.s
  {
    if v.Str? then Some(v.s) else None
  }

  /** An integer that fits in 64 signed bits; floats and larger integers give None. */
  function AsI64(v: Value): (r: Option<int>)
    ensures r.Some? <==> v.Int? && I64_MIN <= v.i <= I64_MAX
    ensures r.Some? ==> r.value == v.i && I64_MIN <= r.value <= I64_MAX
  {
    if v.Int? && I64_MIN <= v.i <= I64_MAX then Some(v.i) else None
  }

  /** The elements of an array value; None for every other kind of value. */
  function AsArray(v: Value): (r: Option<seq<Value>>)
    ensures r.Some? <==> v.Array?
    ensures r.Some? ==> r.value == v.items
  {
    if v.Array? then Some(v.items) else None
  }
}
