/** `json_value_to_av` (src/agent.rs): a structured value into a wire value. */
module Encode {

  import opened Errors
  import opened Numbers
  import opened DecimalText
  import opened JsonValues
  import opened AttributeValues
  import opened KeyOrder

  /** A structured value as a wire value. */
  function EncodeJson(v: Json, ft: FloatText): Result<AV>
    decreases v, 1
  {
    match v
    case String(s) => Ok(S(s))
    case Number(n) => EncodeNumber(n, ft)
    case Bool(b) => Ok(AV.Bool(b))
    case Null => Ok(AV.Null(true))
    case Array(items) =>
      var avs :- EncodeItems(items, ft, []);
      Ok(L(avs))
    case Object(fields) =>
      var m :- EncodeFields(v, SortedKeys(fields.Keys), ft, map[]);
      Ok(M(m))
  }

  /** A number as `N` text: as an `i64` if it is one, else as a `u64`, else as
      an `f64`. `as_f64` answers for every float, so the error is never
      reached (see EncodeNeverFails). */
  function EncodeNumber(n: JsonNumber, ft: FloatText): Result<AV> {
    match AsI64(n)
    case Some(i) => Ok(N(Decimal(i)))
    case None =>
      match AsU64(n)
      case Some(u) => Ok(N(Decimal(u)))
      case None =>
        if n.Float? then Ok(N(ft.display(n.f)))
        else Err(Serialization("Number parse error"))
  }

  /** The array loop: each item is encoded and pushed onto `acc`, in order;
      the first failure stops the loop. */
  function EncodeItems(items: seq<Json>, ft: FloatText, acc: seq<AV>): Result<seq<AV>>
    decreases items
  {
    if items == [] then Ok(acc)
    else
      var av :- EncodeJson(items[0], ft);
      EncodeItems(items[1..], ft, acc + [av])
  }

  /** The object loop: the fields of `parent` named by `keys`, in that order,
      are encoded and inserted into `acc`; the first failure stops the loop. */
  function EncodeFields(parent: Json, keys: seq<string>, ft: FloatText, acc: map<string, AV>): Result<map<string, AV>>
    requires parent.Object? && forall k :: k in keys ==> k in parent.fields
    decreases parent, 0, |keys|
  {
    if keys == [] then Ok(acc)
    else
      var av :- EncodeJson(parent.fields[keys[0]], ft);
      EncodeFields(parent, keys[1..], ft, acc[keys[0] := av])
  }

  /** One turn of the object loop: the field under `keys[i]` is encoded;
      on success the loop goes on with it inserted, on failure it stops with
      that failure. */
  lemma EncodeFieldsStep(parent: Json, keys: seq<string>, i: nat, ft: FloatText, acc: map<string, AV>)
    requires parent.Object? && forall k :: k in keys ==> k in parent.fields
    requires i < |keys|
    ensures var av := EncodeJson(parent.fields[keys[i]], ft);
      EncodeFields(parent, keys[i..], ft, acc) ==
        if av.Ok? then EncodeFields(parent, keys[i + 1..], ft, acc[keys[i] := av.value])
        else av.PropagateFailure()
  {
    assert keys[i..][0] == keys[i] && keys[i..][1..] == keys[i + 1..];
  }

  /** The object arm, one step: an object encodes as its field loop does,
      wrapped into an `M`. */
  lemma EncodeObjectArm(fields: map<string, Json>, ft: FloatText)
    ensures var r := EncodeFields(Object(fields), SortedKeys(fields.Keys), ft, map[]);
      EncodeJson(Object(fields), ft) == if r.Ok? then Ok(M(r.value)) else r.PropagateFailure()
  {
  }

  /** Strings, booleans and null map one to one onto `S`, `BOOL` and
      `NULL(true)`. */
  lemma EncodeScalars(s: string, b: bool, ft: FloatText)
    ensures EncodeJson(String(s), ft) == Ok(S(s))
    ensures EncodeJson(Json.Bool(b), ft) == Ok(AV.Bool(b))
    ensures EncodeJson(Json.Null, ft) == Ok(AV.Null(true))
  {
  }

  /** Every number becomes `N` text: an integer its decimal text, a float its
      `Display` text. */
  lemma EncodeNumberText(n: JsonNumber, ft: FloatText)
    ensures EncodeJson(Number(n), ft) == Ok(N(
      match n
      case PosInt(u) => Decimal(u)
      case NegInt(i) => Decimal(i)
      case Float(f) => ft.display(f)))
  {
  }

  /** When every item encodes, the array loop appends their encodings to
      `acc`, in order. */
  lemma {:induction false} EncodeItemsAppends(items: seq<Json>, ft: FloatText, acc: seq<AV>)
    requires forall i :: 0 <= i < |items| ==> EncodeJson(items[i], ft).Ok?
    ensures EncodeItems(items, ft, acc).Ok?
    ensures |EncodeItems(items, ft, acc).value| == |acc| + |items|
    ensures EncodeItems(items, ft, acc).value[..|acc|] == acc
    ensures forall i :: 0 <= i < |items| ==>
      EncodeItems(items, ft, acc).value[|acc| + i] == EncodeJson(items[i], ft).value
    decreases items
  {
    if items != [] {
      var av := EncodeJson(items[0], ft).value;
      EncodeItemsAppends(items[1..], ft, acc + [av]);
      var r := EncodeItems(items, ft, acc).value;
      assert r == EncodeItems(items[1..], ft, acc + [av]).value;
      assert r[..|acc| + 1] == acc + [av];
      assert r[..|acc|] == (acc + [av])[..|acc|];
      forall i | 0 <= i < |items|
        ensures r[|acc| + i] == EncodeJson(items[i], ft).value
      {
        if i > 0 {
          assert items[1..][i - 1] == items[i];
        }
      }
    }
  }

  /** When every field named by `keys` encodes, the object loop adds exactly
      those keys to `acc`, each bound to its field's encoding. */
  lemma {:induction false} EncodeFieldsInserts(parent: Json, keys: seq<string>, ft: FloatText, acc: map<string, AV>)
    requires parent.Object? && forall k :: k in keys ==> k in parent.fields
    requires forall k :: k in keys ==> EncodeJson(parent.fields[k], ft).Ok?
    ensures EncodeFields(parent, keys, ft, acc).Ok?
    ensures forall k :: k in EncodeFields(parent, keys, ft, acc).value <==> k in acc || k in keys
    ensures forall k :: k in keys ==>
      EncodeFields(parent, keys, ft, acc).value[k] == EncodeJson(parent.fields[k], ft).value
    ensures forall k :: k in acc && k !in keys ==> EncodeFields(parent, keys, ft, acc).value[k] == acc[k]
    decreases |keys|
  {
    if keys != [] {
      var k0 := keys[0];
      var av := EncodeJson(parent.fields[k0], ft).value;
      EncodeFieldsInserts(parent, keys[1..], ft, acc[k0 := av]);
      assert forall k :: k in keys <==> k == k0 || k in keys[1..];
    }
  }

  /** Encoding never fails: every variant of a structured value has a wire
      form, so the `Serialization` error of the number arm is unreachable. */
  lemma {:induction false} EncodeNeverFails(v: Json, ft: FloatText)
    ensures EncodeJson(v, ft).Ok?
    decreases v
  {
    match v
    case Array(items) =>
      forall i | 0 <= i < |items|
        ensures EncodeJson(items[i], ft).Ok?
      {
        EncodeNeverFails(items[i], ft);
      }
      EncodeItemsAppends(items, ft, []);
    case Object(fields) =>
      var keys := SortedKeys(fields.Keys);
      forall k | k in keys
        ensures EncodeJson(fields[k], ft).Ok?
      {
        EncodeNeverFails(fields[k], ft);
      }
      EncodeFieldsInserts(v, keys, ft, map[]);
    case _ =>
  }

  /** An array becomes a list of the same length, item `i` encoded to
      element `i`. */
  lemma EncodeArray(items: seq<Json>, ft: FloatText)
    ensures EncodeJson(Array(items), ft).Ok?
    ensures EncodeJson(Array(items), ft).value.L?
    ensures |EncodeJson(Array(items), ft).value.items| == |items|
    ensures forall i :: 0 <= i < |items| ==>
      Ok(EncodeJson(Array(items), ft).value.items[i]) == EncodeJson(items[i], ft)
  {
    forall i | 0 <= i < |items|
      ensures EncodeJson(items[i], ft).Ok?
    {
      EncodeNeverFails(items[i], ft);
    }
    EncodeItemsAppends(items, ft, []);
  }

  /** An object becomes a map with exactly the same keys, each value
      encoded. */
  lemma EncodeObject(fields: map<string, Json>, ft: FloatText)
    ensures EncodeJson(Object(fields), ft).Ok?
    ensures EncodeJson(Object(fields), ft).value.M?
    ensures EncodeJson(Object(fields), ft).value.fields.Keys == fields.Keys
    ensures forall k :: k in fields ==>
      Ok(EncodeJson(Object(fields), ft).value.fields[k]) == EncodeJson(fields[k], ft)
  {
    var keys := SortedKeys(fields.Keys);
    forall k | k in keys
      ensures EncodeJson(fields[k], ft).Ok?
    {
      EncodeNeverFails(fields[k], ft);
    }
    EncodeFieldsInserts(Object(fields), keys, ft, map[]);
    EncodeObjectArm(fields, ft);
    var m := EncodeFields(Object(fields), keys, ft, map[]).value;
    assert m.Keys == fields.Keys;
  }
}
