/** The generic structured value the converters work on: `serde_json::Value`. */
module JsonValues {

  import opened Errors
  import opened Numbers

  /** `serde_json::Number`, as its three internal representations: a
      non-negative integer, a negative integer, or a finite float. */
  datatype JsonNumber = PosInt(u: U64) | NegInt(i: NegI64) | Float(f: FiniteF64)

  datatype Json =
    | String(s: string)
    | Number(n: JsonNumber)
    | Bool(b: bool)
    | Null
    | Array(items: seq<Json>)
    | Object(fields: map<string, Json>)

  /** `Number::as_i64`: the integer, if it fits in an `i64`. */
  function AsI64(n: JsonNumber): (r: Option<int>)
    ensures r.Some? <==> n.NegInt? || (n.PosInt? && n.u <= I64_MAX)
    ensures r.Some? ==> I64_MIN <= r.value <= I64_MAX
    ensures r.Some? ==> r.value == if n.PosInt? then n.u else n.i
  {
    match n
    case PosInt(u) => if u <= I64_MAX then Some(u) else None
    case NegInt(i) => Some(i)
    case Float(_) => None
  }

  /** `Number::as_u64`: the integer, if it is non-negative. */
  function AsU64(n: JsonNumber): (r: Option<int>)
    ensures r.Some? <==> n.PosInt?
    ensures r.Some? ==> r.value == n.u
  {
    match n
    case PosInt(u) => Some(u)
    case _ => None
  }

  /** `Number::from(i64)`: the representation an `i64` is stored in. */
  function FromI64(i: int): (n: JsonNumber)
    requires I64_MIN <= i <= I64_MAX
    ensures AsI64(n) == Some(i)
  {
    if i < 0 then NegInt(i) else PosInt(i)
  }
}
