/** `av_to_json_value` (src/agent.rs): a wire value back into a structured
    value. */
module Decode {

  import opened Errors
  import opened Numbers
  import opened DecimalText
  import opened JsonValues
  import opened AttributeValues
  import opened KeyOrder

  const UNSUPPORTED: DynamodeError := Deserialization("Unsupported AttributeValue")

  /** A wire value as a structured value. */
  function DecodeAv(av: AV, ft: FloatText): Result<Json>
    decreases av, 1
  {
    match av
    case S(s) => Ok(String(s))
    case N(n) => DecodeNumber(n, ft)
    case Bool(b) => Ok(Json.Bool(b))
    case Null(_) => Ok(Json.Null)
    case L(items) =>
      var vals :- DecodeItems(items, ft, []);
      Ok(Array(vals))
    case M(fields) =>
      var m :- DecodeFields(av, SortedKeys(fields.Keys), ft, map[]);
      Ok(Object(m))
    case _ => Err(UNSUPPORTED)
  }

  /** `N` text: an `i64` if it parses as one; else an `f64` if it parses as
      one, which aborts (`from_f64(..).unwrap()`) when that float is not
      finite; else the text itself as a string. */
  function DecodeNumber(text: string, ft: FloatText): Result<Json> {
    match ParseI64(text)
    case Some(i) => Ok(Number(FromI64(i)))
    case None =>
      match ft.parse(text)
      case Some(f) => if IsFinite(f) then Ok(Number(Float(f))) else Abort
      case None => Ok(String(text))
  }

  /** The list loop: each element is decoded and pushed onto `acc`, in
      order; the first failure stops the loop. */
  function DecodeItems(items: seq<AV>, ft: FloatText, acc: seq<Json>): Result<seq<Json>>
    decreases items
  {
    if items == [] then Ok(acc)
    else
      var v :- DecodeAv(items[0], ft);
      DecodeItems(items[1..], ft, acc + [v])
  }

  /** The map loop: the fields of `parent` named by `keys`, in that order, are
      decoded and inserted into `acc`; the first failure stops the loop. */
  function DecodeFields(parent: AV, keys: seq<string>, ft: FloatText, acc: map<string, Json>): Result<map<string, Json>>
    requires parent.M? && forall k :: k in keys ==> k in parent.fields
    decreases parent, 0, |keys|
  {
    if keys == [] then Ok(acc)
    else
      var v :- DecodeAv(parent.fields[keys[0]], ft);
      DecodeFields(parent, keys[1..], ft, acc[keys[0] := v])
  }

  /** One turn of the list loop: `items[i]` is decoded; on success the loop
      goes on with it appended, on failure it stops with that failure. */
  lemma DecodeItemsStep(items: seq<AV>, i: nat, ft: FloatText, acc: seq<Json>)
    requires i < |items|
    ensures var v := DecodeAv(items[i], ft);
      DecodeItems(items[i..], ft, acc) ==
        if v.Ok? then DecodeItems(items[i + 1..], ft, acc + [v.value])
        else v.PropagateFailure()
  {
    assert items[i..][0] == items[i] && items[i..][1..] == items[i + 1..];
  }

  /** One turn of the map loop: the field under `keys[i]` is decoded; on
      success the loop goes on with it inserted, on failure it stops with that
      failure. */
  lemma DecodeFieldsStep(parent: AV, keys: seq<string>, i: nat, ft: FloatText, acc: map<string, Json>)
    requires parent.M? && forall k :: k in keys ==> k in parent.fields
    requires i < |keys|
    ensures var v := DecodeAv(parent.fields[keys[i]], ft);
      DecodeFields(parent, keys[i..], ft, acc) ==
        if v.Ok? then DecodeFields(parent, keys[i + 1..], ft, acc[keys[i] := v.value])
        else v.PropagateFailure()
  {
    assert keys[i..][0] == keys[i] && keys[i..][1..] == keys[i + 1..];
  }

  /** The list arm, one step: a list decodes as its element loop does,
      wrapped into an array. */
  lemma DecodeListArm(items: seq<AV>, ft: FloatText)
    ensures var r := DecodeItems(items, ft, []);
      DecodeAv(L(items), ft) == if r.Ok? then Ok(Array(r.value)) else r.PropagateFailure()
  {
  }

  /** The map arm, one step: a map decodes as its field loop does, wrapped
      into an object. */
  lemma DecodeMapArm(fields: map<string, AV>, ft: FloatText)
    ensures var r := DecodeFields(M(fields), SortedKeys(fields.Keys), ft, map[]);
      DecodeAv(M(fields), ft) == if r.Ok? then Ok(Object(r.value)) else r.PropagateFailure()
  {
  }

  /** `S` and `BOOL` map one to one back onto strings and booleans; `NULL`
      becomes null whatever its flag. */
  lemma DecodeScalars(s: string, b: bool, flag: bool, ft: FloatText)
    ensures DecodeAv(S(s), ft) == Ok(String(s))
    ensures DecodeAv(AV.Bool(b), ft) == Ok(Json.Bool(b))
    ensures DecodeAv(AV.Null(flag), ft) == Ok(Json.Null)
  {
  }

  /** Binary, set and unknown variants are refused with a `Deserialization`
      error, never turned into a value. */
  lemma DecodeUnsupported(av: AV, ft: FloatText)
    requires !Supported(av)
    ensures DecodeAv(av, ft) == Err(Deserialization("Unsupported AttributeValue"))
  {
  }

  /** The three outcomes of `N` text: the integer it spells, the finite float
      it spells, or (text that is neither) the text as a string, never an
      error; a non-finite float aborts. */
  lemma DecodeNumberCases(text: string, ft: FloatText)
    ensures ParseI64(text).Some? ==> DecodeAv(N(text), ft) == Ok(Number(FromI64(ParseI64(text).value)))
    ensures ParseI64(text).None? && ft.parse(text).Some? && IsFinite(ft.parse(text).value) ==>
      DecodeAv(N(text), ft) == Ok(Number(Float(ft.parse(text).value)))
    ensures ParseI64(text).None? && ft.parse(text).Some? && !IsFinite(ft.parse(text).value) ==>
      DecodeAv(N(text), ft) == Abort
    ensures ParseI64(text).None? && ft.parse(text).None? ==> DecodeAv(N(text), ft) == Ok(String(text))
    ensures !DecodeAv(N(text), ft).Err?
  {
  }

  /** The list loop succeeds exactly when every element decodes; it then
      appends the decoded elements to `acc` in order, and otherwise fails as
      the first failing element does. */
  lemma {:induction false} DecodeItemsLoop(items: seq<AV>, ft: FloatText, acc: seq<Json>)
    ensures DecodeItems(items, ft, acc).Ok? <==> forall i :: 0 <= i < |items| ==> DecodeAv(items[i], ft).Ok?
    ensures DecodeItems(items, ft, acc).Ok? ==>
      |DecodeItems(items, ft, acc).value| == |acc| + |items| &&
      DecodeItems(items, ft, acc).value[..|acc|] == acc &&
      forall i :: 0 <= i < |items| ==> Ok(DecodeItems(items, ft, acc).value[|acc| + i]) == DecodeAv(items[i], ft)
    ensures !DecodeItems(items, ft, acc).Ok? ==>
      exists j :: 0 <= j < |items| && (forall i :: 0 <= i < j ==> DecodeAv(items[i], ft).Ok?) &&
        !DecodeAv(items[j], ft).Ok? && DecodeItems(items, ft, acc) == DecodeAv(items[j], ft).PropagateFailure()
    decreases items
  {
    if items != [] {
      var first := DecodeAv(items[0], ft);
      if first.Ok? {
        var acc' := acc + [first.value];
        DecodeItemsLoop(items[1..], ft, acc');
        assert forall i :: 1 <= i < |items| ==> items[1..][i - 1] == items[i];
        var r := DecodeItems(items, ft, acc);
        assert r == DecodeItems(items[1..], ft, acc');
        if r.Ok? {
          assert r.value[..|acc'|] == acc';
          assert r.value[..|acc|] == acc'[..|acc|];
        } else {
          var j :| 0 <= j < |items[1..]| && (forall i :: 0 <= i < j ==> DecodeAv(items[1..][i], ft).Ok?) &&
            !DecodeAv(items[1..][j], ft).Ok? && r == DecodeAv(items[1..][j], ft).PropagateFailure();
          assert forall i :: 0 <= i < j + 1 ==> DecodeAv(items[i], ft).Ok?;
        }
      }
    }
  }

  /** The map loop succeeds exactly when every field named by `keys`
      decodes; it then adds exactly those keys to `acc`, each bound to its
      decoded field, and otherwise fails as some failing field does. */
  lemma {:induction false} DecodeFieldsLoop(parent: AV, keys: seq<string>, ft: FloatText, acc: map<string, Json>)
    requires parent.M? && forall k :: k in keys ==> k in parent.fields
    ensures DecodeFields(parent, keys, ft, acc).Ok? <==> forall k :: k in keys ==> DecodeAv(parent.fields[k], ft).Ok?
    ensures DecodeFields(parent, keys, ft, acc).Ok? ==>
      (forall k :: k in DecodeFields(parent, keys, ft, acc).value <==> k in acc || k in keys) &&
      (forall k :: k in keys ==> Ok(DecodeFields(parent, keys, ft, acc).value[k]) == DecodeAv(parent.fields[k], ft)) &&
      forall k :: k in acc && k !in keys ==> DecodeFields(parent, keys, ft, acc).value[k] == acc[k]
    ensures !DecodeFields(parent, keys, ft, acc).Ok? ==>
      exists k :: k in keys && !DecodeAv(parent.fields[k], ft).Ok? &&
        DecodeFields(parent, keys, ft, acc) == DecodeAv(parent.fields[k], ft).PropagateFailure()
    decreases |keys|
  {
    if keys != [] {
      var k0 := keys[0];
      var first := DecodeAv(parent.fields[k0], ft);
      assert forall k :: k in keys <==> k == k0 || k in keys[1..];
      if first.Ok? {
        DecodeFieldsLoop(parent, keys[1..], ft, acc[k0 := first.value]);
      } else {
        assert DecodeFields(parent, keys, ft, acc) == first.PropagateFailure();
      }
    }
  }

  /** A list decodes exactly when every element does, to an array of the
      same length with element `i` decoded from element `i`; otherwise the
      whole decode fails as its first failing element does. */
  lemma DecodeList(items: seq<AV>, ft: FloatText)
    ensures DecodeAv(L(items), ft).Ok? <==> forall i :: 0 <= i < |items| ==> DecodeAv(items[i], ft).Ok?
    ensures DecodeAv(L(items), ft).Ok? ==>
      DecodeAv(L(items), ft).value.Array? &&
      |DecodeAv(L(items), ft).value.items| == |items| &&
      forall i :: 0 <= i < |items| ==> Ok(DecodeAv(L(items), ft).value.items[i]) == DecodeAv(items[i], ft)
    ensures !DecodeAv(L(items), ft).Ok? ==>
      exists j :: 0 <= j < |items| && (forall i :: 0 <= i < j ==> DecodeAv(items[i], ft).Ok?) &&
        DecodeAv(L(items), ft) == DecodeAv(items[j], ft)
  {
    DecodeItemsLoop(items, ft, []);
    DecodeListArm(items, ft);
    if !DecodeItems(items, ft, []).Ok? {
      var j :| 0 <= j < |items| && (forall i :: 0 <= i < j ==> DecodeAv(items[i], ft).Ok?) &&
        !DecodeAv(items[j], ft).Ok? && DecodeItems(items, ft, []) == DecodeAv(items[j], ft).PropagateFailure();
      PropagateTwice<Json, seq<Json>>(DecodeAv(items[j], ft));
    }
  }

  /** A map decodes exactly when every field does, to an object with exactly
      the same keys, each decoded; otherwise the whole decode fails as one of
      its failing fields does, and no partial object is returned. */
  lemma DecodeMap(fields: map<string, AV>, ft: FloatText)
    ensures DecodeAv(M(fields), ft).Ok? <==> forall k :: k in fields ==> DecodeAv(fields[k], ft).Ok?
    ensures DecodeAv(M(fields), ft).Ok? ==>
      DecodeAv(M(fields), ft).value.Object? &&
      DecodeAv(M(fields), ft).value.fields.Keys == fields.Keys &&
      forall k :: k in fields ==> Ok(DecodeAv(M(fields), ft).value.fields[k]) == DecodeAv(fields[k], ft)
    ensures !DecodeAv(M(fields), ft).Ok? ==>
      exists k :: k in fields && !DecodeAv(fields[k], ft).Ok? && DecodeAv(M(fields), ft) == DecodeAv(fields[k], ft)
  {
    var keys := SortedKeys(fields.Keys);
    var r := DecodeFields(M(fields), keys, ft, map[]);
    DecodeFieldsLoop(M(fields), keys, ft, map[]);
    DecodeMapArm(fields, ft);
    if r.Ok? {
      assert r.value.Keys == fields.Keys;
    } else {
      var k :| k in keys && !DecodeAv(fields[k], ft).Ok? && r == DecodeAv(fields[k], ft).PropagateFailure();
      PropagateTwice<Json, map<string, Json>>(DecodeAv(fields[k], ft));
    }
  }

  /** The wire values that decode: no binary, set or unknown variant
      anywhere inside, and no `N` text that the integer parse refuses but the
      float parse reads as an infinity or a NaN. */
  predicate Decodable(av: AV, ft: FloatText)
    decreases av
  {
    match av
    case S(_) => true
    case N(n) => ParseI64(n).Some? || ft.parse(n).None? || IsFinite(ft.parse(n).value)
    case Bool(_) => true
    case Null(_) => true
    case L(items) => forall i :: 0 <= i < |items| ==> Decodable(items[i], ft)
    case M(fields) => forall k :: k in fields ==> Decodable(fields[k], ft)
    case _ => false
  }

  /** Decoding succeeds exactly on the decodable wire values; the only error
      it returns is the unsupported-variant one (the other failure is the
      abort on a non-finite float). */
  lemma {:induction false} DecodeOutcome(av: AV, ft: FloatText)
    ensures DecodeAv(av, ft).Ok? <==> Decodable(av, ft)
    ensures DecodeAv(av, ft).Err? ==> DecodeAv(av, ft).error == UNSUPPORTED
    decreases av
  {
    match av
    case L(items) =>
      forall i | 0 <= i < |items|
        ensures DecodeAv(items[i], ft).Ok? <==> Decodable(items[i], ft)
        ensures DecodeAv(items[i], ft).Err? ==> DecodeAv(items[i], ft).error == UNSUPPORTED
      {
        DecodeOutcome(items[i], ft);
      }
      DecodeList(items, ft);
    case M(fields) =>
      forall k | k in fields
        ensures DecodeAv(fields[k], ft).Ok? <==> Decodable(fields[k], ft)
        ensures DecodeAv(fields[k], ft).Err? ==> DecodeAv(fields[k], ft).error == UNSUPPORTED
      {
        DecodeOutcome(fields[k], ft);
      }
      DecodeMap(fields, ft);
    case _ =>
  }

  /** A map decodes to the object `fields` (with the same keys) exactly when
      each of its fields decodes to the value `fields` holds under that key. */
  lemma DecodeMapTo(key: map<string, AV>, fields: map<string, Json>, ft: FloatText)
    requires key.Keys == fields.Keys
    ensures DecodeAv(M(key), ft) == Ok(Object(fields)) <==> forall k :: k in key ==> DecodeAv(key[k], ft) == Ok(fields[k])
  {
    DecodeMap(key, ft);
    if forall k :: k in key ==> DecodeAv(key[k], ft) == Ok(fields[k]) {
      assert DecodeAv(M(key), ft).value.fields == fields;
    }
  }
}
