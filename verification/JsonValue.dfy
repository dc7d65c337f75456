/** Parsed JSON or YAML values. A missing property is `None`; object members keep their order. */
module JsonValue {
  import opened Wrappers
  import opened OrderedMap

  datatype Json =
    | Null | Bool(flag: bool) | Num(number: real) | NaN | Infinite | Str(text: string)
    | Arr(items: seq<Json>) | Obj(fields: Assoc<Json>)

  /** `v?.[key]` */
  function Prop(v: Option<Json>, key: string): Option<Json> {
    if v.Some? && v.value.Obj? then Lookup(v.value.fields, key) else None
  }

  /** JavaScript truthiness, with `undefined` as `None`. */
  predicate Truthy(v: Option<Json>) {
    match v
    case None => false
    case Some(Null) => false
    case Some(Bool(b)) => b
    case Some(Num(n)) => n != 0.0
    case Some(NaN) => false
    case Some(Infinite) => true
    case Some(Str(s)) => s != ""
    case Some(_) => true
  }
}
