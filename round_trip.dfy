/** What survives a write followed by a read: encoding a structured value and
    decoding the wire value it becomes. */
module RoundTrip {

  import opened Errors
  import opened Numbers
  import opened DecimalText
  import opened JsonValues
  import opened AttributeValues
  import opened Encode
  import opened Decode

  /** The numbers that come back unchanged: integers that fit in an `i64`,
      and floats whose text does not read as an `i64` and reads back, as a
      float, to the same value. */
  predicate NumberRestorable(n: JsonNumber, ft: FloatText) {
    match n
    case PosInt(u) => u <= I64_MAX
    case NegInt(_) => true
    case Float(f) => ParseI64(ft.display(f)).None? && ft.parse(ft.display(f)) == Some(f)
  }

  /** Every number inside the value is restorable. */
  predicate Restorable(v: Json, ft: FloatText)
    decreases v
  {
    match v
    case Number(n) => NumberRestorable(n, ft)
    case Array(items) => forall i :: 0 <= i < |items| ==> Restorable(items[i], ft)
    case Object(fields) => forall k :: k in fields ==> Restorable(fields[k], ft)
    case _ => true
  }

  /** An `i64` is written as its decimal text and read back as the same
      integer, not as a float. */
  lemma IntegerRoundTrip(i: int, ft: FloatText)
    requires I64_MIN <= i <= I64_MAX
    ensures EncodeJson(Number(FromI64(i)), ft) == Ok(N(Decimal(i)))
    ensures DecodeAv(N(Decimal(i)), ft) == Ok(Number(FromI64(i)))
  {
    DecimalRoundTrip(i);
  }

  /** A `u64` above `i64::MAX` is written as its decimal text, which
      overflows the integer parse on the way back: it returns as a float (or
      as whatever the float parse makes of it), never as an integer. */
  lemma LargeUnsignedComesBackAsFloat(u: int, ft: FloatText)
    requires I64_MAX < u <= U64_MAX
    ensures EncodeJson(Number(PosInt(u)), ft) == Ok(N(Decimal(u)))
    ensures var r := DecodeAv(N(Decimal(u)), ft);
      !(r.Ok? && r.value.Number? && !r.value.n.Float?)
    ensures var f := ft.parse(Decimal(u));
      f.Some? && IsFinite(f.value) ==> DecodeAv(N(Decimal(u)), ft) == Ok(Number(Float(f.value)))
  {
    DecimalAboveI64Max(u);
  }

  /** A float whose `Display` text reads as an `i64` (1.0 is shown as "1")
      comes back as that integer, not as a float. */
  lemma IntegralFloatComesBackAsInteger(f: FiniteF64, ft: FloatText)
    requires ParseI64(ft.display(f)).Some?
    ensures DecodeAv(EncodeJson(Number(Float(f)), ft).value, ft) == Ok(Number(FromI64(ParseI64(ft.display(f)).value)))
    ensures DecodeAv(EncodeJson(Number(Float(f)), ft).value, ft) != Ok(Number(Float(f)))
  {
  }

  /** A number comes back unchanged exactly when it is restorable. */
  lemma NumberRoundTrip(n: JsonNumber, ft: FloatText)
    ensures DecodeAv(EncodeJson(Number(n), ft).value, ft) == Ok(Number(n)) <==> NumberRestorable(n, ft)
  {
    match n
    case PosInt(u) =>
      if u <= I64_MAX {
        DecimalRoundTrip(u);
      } else {
        DecimalAboveI64Max(u);
      }
    case NegInt(i) =>
      DecimalRoundTrip(i);
    case Float(f) =>
  }

  /** An array round-trips exactly when each of its items does. */
  lemma ArrayRoundTrip(items: seq<Json>, ft: FloatText)
    requires forall i :: 0 <= i < |items| ==> EncodeJson(items[i], ft).Ok?
    ensures EncodeJson(Array(items), ft).Ok?
    ensures DecodeAv(EncodeJson(Array(items), ft).value, ft) == Ok(Array(items)) <==>
      forall i :: 0 <= i < |items| ==> DecodeAv(EncodeJson(items[i], ft).value, ft) == Ok(items[i])
  {
    EncodeArray(items, ft);
    var avs := EncodeJson(Array(items), ft).value.items;
    assert forall i :: 0 <= i < |items| ==> EncodeJson(items[i], ft).value == avs[i];
    DecodeList(avs, ft);
    var r := DecodeAv(L(avs), ft);
    if forall i :: 0 <= i < |items| ==> DecodeAv(avs[i], ft) == Ok(items[i]) {
      assert r.Ok?;
      assert r.value.items == items;
    }
  }

  /** An object round-trips exactly when each of its fields does. */
  lemma ObjectRoundTrip(fields: map<string, Json>, ft: FloatText)
    requires forall k :: k in fields ==> EncodeJson(fields[k], ft).Ok?
    ensures EncodeJson(Object(fields), ft).Ok?
    ensures DecodeAv(EncodeJson(Object(fields), ft).value, ft) == Ok(Object(fields)) <==>
      forall k :: k in fields ==> DecodeAv(EncodeJson(fields[k], ft).value, ft) == Ok(fields[k])
  {
    EncodeObject(fields, ft);
    var avs := EncodeJson(Object(fields), ft).value.fields;
    assert forall k :: k in fields ==> EncodeJson(fields[k], ft).value == avs[k];
    DecodeMapTo(avs, fields, ft);
  }

  /** Round-trip law: a structured value comes back unchanged from an encode
      followed by a decode exactly when every number inside it is
      restorable. */
  lemma {:induction false} JsonRoundTrip(v: Json, ft: FloatText)
    ensures EncodeJson(v, ft).Ok?
    ensures DecodeAv(EncodeJson(v, ft).value, ft) == Ok(v) <==> Restorable(v, ft)
    decreases v
  {
    EncodeNeverFails(v, ft);
    match v
    case Number(n) =>
      NumberRoundTrip(n, ft);
    case Array(items) =>
      forall i | 0 <= i < |items|
        ensures EncodeJson(items[i], ft).Ok?
        ensures DecodeAv(EncodeJson(items[i], ft).value, ft) == Ok(items[i]) <==> Restorable(items[i], ft)
      {
        JsonRoundTrip(items[i], ft);
      }
      ArrayRoundTrip(items, ft);
    case Object(fields) =>
      forall k | k in fields
        ensures EncodeJson(fields[k], ft).Ok?
        ensures DecodeAv(EncodeJson(fields[k], ft).value, ft) == Ok(fields[k]) <==> Restorable(fields[k], ft)
      {
        JsonRoundTrip(fields[k], ft);
      }
      ObjectRoundTrip(fields, ft);
    case _ =>
  }
}
