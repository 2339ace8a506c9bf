/** The item-level work of `DynamodeAgent` (src/agent.rs) around its store
    calls: the key of `get` and `delete`, the item `put` sends, and the
    decoding of what `get`, `query_by_pk` and `scan_all` receive. The store
    call itself is not modelled: `put` returns the item it would send, and
    the reads take the store's response as a parameter. */
module Agent {

  import opened Errors
  import opened Numbers
  import opened JsonValues
  import opened AttributeValues
  import opened KeyOrder
  import opened Encode
  import opened Decode

  /** The key item of `get` and `delete`: the partition key under "pk" and the
      sort key under "sk", both as `S`. */
  function KeyMap(pk: string, sk: string): (key: map<string, AV>)
    ensures |key| == 2 && key.Keys == {"pk", "sk"}
    ensures key["pk"] == S(pk) && key["sk"] == S(sk)
  {
    map["pk" := S(pk), "sk" := S(sk)]
  }

  /** The key item is exactly what encoding the record {"pk": pk, "sk": sk}
      gives. */
  lemma KeyMapIsEncodedKey(pk: string, sk: string, ft: FloatText)
    ensures EncodeJson(Object(map["pk" := String(pk), "sk" := String(sk)]), ft) == Ok(M(KeyMap(pk, sk)))
  {
    var fields := map["pk" := String(pk), "sk" := String(sk)];
    EncodeObject(fields, ft);
    var m := EncodeJson(Object(fields), ft).value.fields;
    assert m.Keys == {"pk", "sk"};
    assert Ok(m["pk"]) == EncodeJson(String(pk), ft);
    assert Ok(m["sk"]) == EncodeJson(String(sk), ft);
    assert m == KeyMap(pk, sk);
  }

  /** The key item decodes back to the record {"pk": pk, "sk": sk}. */
  lemma KeyMapDecodes(pk: string, sk: string, ft: FloatText)
    ensures DecodeAv(M(KeyMap(pk, sk)), ft) == Ok(Object(map["pk" := String(pk), "sk" := String(sk)]))
  {
    var key := KeyMap(pk, sk);
    var fields := map["pk" := String(pk), "sk" := String(sk)];
    forall k | k in key
      ensures DecodeAv(key[k], ft) == Ok(fields[k])
    {
    }
    DecodeMapTo(key, fields, ft);
  }

  /** The item `put` sends: each field of the record's structured form
      encoded, in the map's order, the first failure aborting the put. A
      record whose structured form is not an object gives an empty item. */
  method PutItem(record: Json, ft: FloatText) returns (r: Result<map<string, AV>>)
    ensures !record.Object? ==> r == Ok(map[])
    ensures record.Object? ==> r == EncodeFields(record, SortedKeys(record.fields.Keys), ft, map[])
    ensures record.Object? && r.Ok? ==>
      r.value.Keys == record.fields.Keys &&
      forall k :: k in record.fields ==> Ok(r.value[k]) == EncodeJson(record.fields[k], ft)
  {
    var itemMap: map<string, AV> := map[];
    if record.Object? {
      var keys := SortedKeys(record.fields.Keys);
      for i := 0 to |keys|
        invariant EncodeFields(record, keys[i..], ft, itemMap) == EncodeFields(record, keys, ft, map[])
      {
        EncodeFieldsStep(record, keys, i, ft, itemMap);
        var av := EncodeJson(record.fields[keys[i]], ft);
        if !av.Ok? {
          r := av.PropagateFailure();
          return;
        }
        itemMap := itemMap[keys[i] := av.value];
      }
      assert keys[|keys|..] == [];
      assert EncodeJson(record, ft) == Ok(M(itemMap));
      EncodeObject(record.fields, ft);
    }
    r := Ok(itemMap);
  }

  /** `put`'s encoding of an object record always succeeds: the item it
      sends is never replaced by an error. */
  lemma PutItemNeverFails(record: Json, ft: FloatText)
    requires record.Object?
    ensures EncodeFields(record, SortedKeys(record.fields.Keys), ft, map[]).Ok?
  {
    EncodeObject(record.fields, ft);
    EncodeObjectArm(record.fields, ft);
  }

  /** One item received from the store, decoded field by field into an
      object, the first failing field aborting the read. */
  method DecodeItem(item: map<string, AV>, ft: FloatText) returns (r: Result<Json>)
    ensures r == DecodeAv(M(item), ft)
  {
    DecodeMapArm(item, ft);
    var keys := SortedKeys(item.Keys);
    var jsonMap: map<string, Json> := map[];
    for i := 0 to |keys|
      invariant DecodeFields(M(item), keys[i..], ft, jsonMap) == DecodeFields(M(item), keys, ft, map[])
    {
      DecodeFieldsStep(M(item), keys, i, ft, jsonMap);
      var v := DecodeAv(item[keys[i]], ft);
      if !v.Ok? {
        assert DecodeFields(M(item), keys, ft, map[]) == v.PropagateFailure();
        PropagateTwice<Json, map<string, Json>>(v);
        r := v;
        return;
      }
      jsonMap := jsonMap[keys[i] := v.value];
    }
    assert keys[|keys|..] == [];
    assert DecodeFields(M(item), keys, ft, map[]) == Ok(jsonMap);
    r := Ok(Object(jsonMap));
  }

  /** `get` after the store call: no item is `None`; an item is decoded,
      and a failing field fails the whole `get` rather than giving a partial
      record. */
  method GetItem(output: Option<map<string, AV>>, ft: FloatText) returns (r: Result<Option<Json>>)
    ensures output.None? ==> r == Ok(None)
    ensures output.Some? ==> (r.Ok? <==> forall k :: k in output.value ==> DecodeAv(output.value[k], ft).Ok?)
    ensures output.Some? && r.Ok? ==> r.value.Some? && Ok(r.value.value) == DecodeAv(M(output.value), ft)
    ensures output.Some? && !r.Ok? ==>
      exists k :: k in output.value && !DecodeAv(output.value[k], ft).Ok? &&
        r == DecodeAv(output.value[k], ft).PropagateFailure()
  {
    if output.Some? {
      DecodeMap(output.value, ft);
      var record := DecodeItem(output.value, ft);
      if !record.Ok? {
        r := record.PropagateFailure();
        return;
      }
      r := Ok(Some(record.value));
    } else {
      r := Ok(None);
    }
  }

  /** The items of a query or scan response, each as the `M` value it is
      decoded from. */
  function AsMaps(items: seq<map<string, AV>>): (avs: seq<AV>)
    ensures |avs| == |items| && forall i :: 0 <= i < |items| ==> avs[i] == M(items[i])
  {
    seq(|items|, i requires 0 <= i < |items| => M(items[i]))
  }

  /** `query_by_pk` and `scan_all` after the store call: the result loop is
      the list loop of the decoder run over the items as maps (see
      DecodeItemsLoop: every item decoded in order, or the whole read fails as
      the first failing item does); no items is an empty list. */
  method ReadItems(items: Option<seq<map<string, AV>>>, ft: FloatText) returns (r: Result<seq<Json>>)
    ensures items.None? ==> r == Ok([])
    ensures items.Some? ==> r == DecodeItems(AsMaps(items.value), ft, [])
  {
    var results: seq<Json> := [];
    if items.Some? {
      var all := items.value;
      ghost var avs := AsMaps(all);
      for i := 0 to |all|
        invariant DecodeItems(avs[i..], ft, results) == DecodeItems(avs, ft, [])
      {
        DecodeItemsStep(avs, i, ft, results);
        var record := DecodeItem(all[i], ft);
        if !record.Ok? {
          r := record.PropagateFailure();
          return;
        }
        results := results + [record.value];
      }
      assert avs[|all|..] == [];
    }
    r := Ok(results);
  }

  /** A query or scan read succeeds exactly when every item decodes, and then
      yields each item's object in the response's order; otherwise it fails
      as the first failing item does, never with a partial list. */
  lemma ReadItemsOutcome(items: seq<map<string, AV>>, ft: FloatText)
    ensures DecodeItems(AsMaps(items), ft, []).Ok? <==> forall i :: 0 <= i < |items| ==> DecodeAv(M(items[i]), ft).Ok?
    ensures DecodeItems(AsMaps(items), ft, []).Ok? ==>
      |DecodeItems(AsMaps(items), ft, []).value| == |items| &&
      forall i :: 0 <= i < |items| ==> Ok(DecodeItems(AsMaps(items), ft, []).value[i]) == DecodeAv(M(items[i]), ft)
    ensures !DecodeItems(AsMaps(items), ft, []).Ok? ==>
      exists j :: 0 <= j < |items| && (forall i :: 0 <= i < j ==> DecodeAv(M(items[i]), ft).Ok?) &&
        !DecodeAv(M(items[j]), ft).Ok? && DecodeItems(AsMaps(items), ft, []) == DecodeAv(M(items[j]), ft).PropagateFailure()
  {
    DecodeItemsLoop(AsMaps(items), ft, []);
  }
}
