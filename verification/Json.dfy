/** JSON values (RFC 8259) as the ledger reads them: an object is a map, so a repeated key keeps its last value. */
module Json {
  import opened Wrappers

  const TWO_TO_64: nat := 0x1_0000_0000_0000_0000

  datatype Json =
    | Null
    | Bool(b: bool)
    | Number(n: int)
    | Fraction(text: string)
    | Text(s: string)
    | Array(items: seq<Json>)
    | Object(members: map<string, Json>)

  type Members = map<string, Json>

  function Get(o: Members, key: string): Option<Json> {
    if key in o then Some(o[key]) else None
  }

  /** Value::as_u64 of an optional member. */
  function AsU64(v: Option<Json>): (r: Option<nat>)
    ensures r.Some? ==> r.value < TWO_TO_64 && v == Some(Number(r.value))
  {
    if v.Some? && v.value.Number? && 0 <= v.value.n < TWO_TO_64 then Some(v.value.n) else None
  }

  /** Value::as_str of an optional member. */
  function AsStr(v: Option<Json>): (r: Option<string>)
    ensures r.Some? ==> v == Some(Text(r.value))
  {
    if v.Some? && v.value.Text? then Some(v.value.s) else None
  }
}
