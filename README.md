# dynamode: the item conversion layer, in Dafny

dynamode is a small Rust access layer for DynamoDB. A record is turned into a
generic structured value (`serde_json::Value`), and that value is converted
field by field into DynamoDB's tagged wire value (`AttributeValue`) before
`put`. Items read back by `get`, `query_by_pk` and `scan_all` are converted
the other way. This project models those two converters, `json_value_to_av`
and `av_to_json_value` (src/agent.rs), and the item-level loops of the agent
around its store calls: the `pk`/`sk` key item of `get` and `delete`, the item
map built by `put`, and the decoding of the items `get`, `query_by_pk` and
`scan_all` receive. It proves properties of them.

Layout, one module per file:

- `errors.dfy` (`Errors`): the two `DynamodeError` variants the converters
  raise, and `Result`. Its third case, `Abort`, stands for a panic.
- `numbers.dfy` (`Numbers`): the `i64`/`u64` ranges and `f64` as its IEEE 754
  bit pattern. `FloatText` holds the `Display` and `FromStr` text forms of
  `f64`. These are Rust standard-library code, so every lemma takes them as a
  parameter.
- `decimal.dfy` (`DecimalText`): `to_string` of the 64-bit integers and
  `str::parse::<i64>`.
- `key_order.dfy` (`KeyOrder`): the order in which map fields are visited.
- `json.dfy` (`JsonValues`): `serde_json::Value`, with numbers as the three
  internal representations of `serde_json::Number`.
- `attribute_value.dfy` (`AttributeValues`): every `AttributeValue` variant.
- `encode.dfy` (`Encode`), `decode.dfy` (`Decode`): the two converters. Their
  `for` loops over lists and maps are the left folds `EncodeItems`,
  `EncodeFields`, `DecodeItems` and `DecodeFields`.
- `round_trip.dfy` (`RoundTrip`): what survives a write followed by a read.
- `agent.dfy` (`Agent`): the key item, and the loops of `put`, `get`,
  `query_by_pk` and `scan_all` as methods. Each method is proved equal to the
  fold that specifies it.

Where the design description of this layer and the code disagree, the model
follows the code:

- A record whose structured form is not an object gives an empty item in
  `put` (src/agent.rs:34-39). No root-not-object error is raised.
- `N` text that reads neither as an `i64` nor as an `f64` decodes to a
  string (src/agent.rs:226-227), not to a malformed-number error.
- `N` text that reads as an infinity or a NaN makes `from_f64(..).unwrap()`
  panic (src/agent.rs:222-225). The model returns `Abort`, not a
  non-finite-number error.
- A failing list element or map field hands its error up unchanged
  (src/agent.rs:235, 242); no index or field name is attached.
- There is no recursion-depth guard. The encoder's `Serialization("Number
  parse error")` branch can never be reached (`Encode.EncodeNeverFails`).
- The unsupported-variant error carries the fixed text "Unsupported
  AttributeValue", not the name of the variant.

## Model

| member | source | states |
|---|---|---|
| JsonValues.AsI64 | src/agent.rs:184 | `as_i64` answers exactly for negative integers and for non-negative ones up to `i64::MAX`, and the answer is the integer itself |
| JsonValues.AsU64 | src/agent.rs:186 | `as_u64` answers exactly for non-negative integers, and the answer is the integer itself |
| JsonValues.FromI64 | src/agent.rs:221 | `Number::from(i64)` stores the integer so that `as_i64` gives it back |
| DecimalText.ParseI64 | src/agent.rs:220 | `parse::<i64>` accepts only an optional sign followed by a non-empty run of digits, and answers with the signed value of those digits, which lies in the `i64` range |
| DecimalText.ParseI64Unsigned | src/agent.rs:220 | every non-empty run of digits, leading zeros included, is accepted with its value when that fits in an `i64`, and refused otherwise |
| DecimalText.ParseI64WithSign | src/agent.rs:220 | every `+` or `-` followed by a non-empty run of digits ("+5", "007", "-0") is accepted with the signed value when that is in the `i64` range, and refused otherwise |
| DecimalText.NatDigitsRoundTrip | src/agent.rs:185 | the digits `to_string` writes for a natural number are a non-empty run of digits that reads back as that number |
| DecimalText.DecimalRoundTrip | src/agent.rs:220 | every `i64` written by `to_string` parses back as itself |
| DecimalText.DecimalAboveI64Max | src/agent.rs:186-187 | a `u64` above `i64::MAX` is written as well-formed digits of its value that `parse::<i64>` refuses |
| KeyOrder.SortedKeys | src/agent.rs:207 | the fields of a map are visited once each: every key, and only keys of the map |
| KeyOrder.SortedKeysAscending | src/agent.rs:207 | the fields are visited in strictly ascending key order, the iteration order of a B-tree `serde_json::Map` (serde_json without `preserve_order`) |
| Encode.EncodeScalars | src/agent.rs:182-197 | strings, booleans and null become `S`, `BOOL` and `NULL(true)` |
| Encode.EncodeNumberText | src/agent.rs:183-195 | an integer becomes `N` holding its decimal text, and a float becomes `N` holding its `Display` text |
| Encode.EncodeItemsAppends | src/agent.rs:199-202 | when every element encodes, the array loop appends the encodings in order after what it already holds |
| Encode.EncodeFieldsInserts | src/agent.rs:206-209 | when every field encodes, the object loop adds exactly the visited keys, each bound to its field's encoding, and keeps the other entries |
| Encode.EncodeNeverFails | src/agent.rs:180-213 | encoding succeeds on every structured value, so the `Number parse error` branch is unreachable |
| Encode.EncodeArray | src/agent.rs:198-204 | an array becomes an `L` of the same length whose element `i` is the encoding of item `i` |
| Encode.EncodeObject | src/agent.rs:205-211 | an object becomes an `M` with exactly the same keys, each value encoded |
| Decode.DecodeScalars | src/agent.rs:218-231 | `S`, `BOOL` and `NULL` decode one to one to string, boolean and null, whatever the `NULL` flag |
| Decode.DecodeUnsupported | src/agent.rs:246-248 | binary, set and unknown variants fail with `Deserialization("Unsupported AttributeValue")` |
| Decode.DecodeNumberCases | src/agent.rs:219-229 | `N` text decodes to the integer it spells, else to the finite float it spells, else to the text as a string; a non-finite float panics; the arm never returns an error |
| Decode.DecodeItemsLoop | src/agent.rs:233-236 | the list loop succeeds exactly when every element decodes, then appends the results in order; otherwise it fails as the first failing element does |
| Decode.DecodeFieldsLoop | src/agent.rs:240-243 | the map loop succeeds exactly when every field decodes, then adds exactly the visited keys with their decoded values; otherwise it fails as a failing field does |
| Decode.DecodeList | src/agent.rs:232-238 | an `L` decodes exactly when every element does, to an array of the same length decoded element by element; otherwise it gives the first failing element's failure |
| Decode.DecodeMap | src/agent.rs:239-245 | an `M` decodes exactly when every field does, to an object with the same keys decoded field by field; otherwise it gives the failure of one failing field and no partial object |
| Decode.DecodeOutcome | src/agent.rs:216-250 | decoding succeeds exactly on values with no binary, set or unknown variant and no non-finite `N` text inside, and its only error is the unsupported-variant one |
| Decode.DecodeMapTo | src/agent.rs:239-245 | an `M` decodes to a given object with the same keys exactly when each field decodes to that object's value under its key |
| RoundTrip.IntegerRoundTrip | src/agent.rs:184-185 | an `i64` is written as its decimal text and comes back as the same integer |
| RoundTrip.LargeUnsignedComesBackAsFloat | src/agent.rs:186-187 | a `u64` above `i64::MAX` never comes back as an integer; it comes back as the float its text reads as, when that float is finite |
| RoundTrip.IntegralFloatComesBackAsInteger | src/agent.rs:188-189 | a float whose `Display` text reads as an `i64` comes back as that integer, not as the float |
| RoundTrip.NumberRoundTrip | src/agent.rs:183-195 | a number comes back unchanged exactly when it is restorable: an `i64`, or a float whose text is not an integer and reads back to it |
| RoundTrip.ArrayRoundTrip | src/agent.rs:198-204 | an array comes back unchanged exactly when each item does |
| RoundTrip.ObjectRoundTrip | src/agent.rs:205-211 | an object comes back unchanged exactly when each field does |
| RoundTrip.JsonRoundTrip | src/agent.rs:180-250 | every structured value encodes, and decoding its encoding gives it back exactly when every number inside is restorable |
| Agent.KeyMap | src/agent.rs:59-61 | the key item has exactly the two fields "pk" and "sk", holding `S(pk)` and `S(sk)` |
| Agent.KeyMapIsEncodedKey | src/agent.rs:59-61 | the key item is what encoding the record {"pk": pk, "sk": sk} gives |
| Agent.KeyMapDecodes | src/agent.rs:59-61 | the key item decodes back to the record {"pk": pk, "sk": sk} |
| Agent.PutItem | src/agent.rs:30-39 | `put`'s item is empty for a non-object record; for an object it is the object loop's result, with exactly the record's keys, each value encoded |
| Agent.PutItemNeverFails | src/agent.rs:34-39 | for an object record the object loop of `put` always succeeds, so `put` never fails in the conversion |
| Agent.DecodeItem | src/agent.rs:74-78 | one stored item is decoded field by field exactly as the converter decodes it as an `M` |
| Agent.GetItem | src/agent.rs:72-85 | no item gives `None`; an item gives `Some` of its decoded object exactly when every field decodes; otherwise a failing field's failure |
| Agent.ReadItems | src/agent.rs:134-147 | the result loop of `query_by_pk` (and of `scan_all`, src/agent.rs:162-175) decodes the items in order, as the list loop does over the items as maps; no items gives an empty list |
| Agent.ReadItemsOutcome | src/agent.rs:134-147 | a query or scan read succeeds exactly when every item decodes, yields each item's object in response order, and otherwise fails as the first failing item does |

## Left out

- The store calls (`put_item`, `get_item`, `delete_item`, `query`, `scan`), their `DynamoDb` errors, `async` and the client: network I/O. `put` returns the item it would send. The reads take the store's response as a parameter.
- `connect_local`, `update` (which is `put` itself), src/main.rs and src/model.rs: connection setup, a demo program, and the trait that names a table.
- Building the query request (the expression attribute names and values of `query_by_pk`, src/agent.rs:117-129): request plumbing handed to the SDK.
- `serde_json::to_value` and `serde_json::from_value`, with the `Serialization`/`Deserialization` errors they raise: serde's derive machinery is not part of this model. The model starts from the structured value and ends with it.
- The other `DynamodeError` variants and its `Display` (src/error.rs): the converters never raise or format them.
- `f64` `Display` and `FromStr`: standard-library code. They are a parameter (`FloatText`), and the float lemmas name the laws they rely on as premises.
- The order of a `HashMap`: the model visits every map in ascending key order. That is the order of the encoder's `serde_json::Map` when it is a B-tree, which is so unless serde_json's `preserve_order` feature is on; the crate manifest is not part of this model. Encoding never fails, so that order decides nothing there. The SDK's `HashMap` on the decode side has an unspecified order. When several fields of an item fail, that order decides which failure the read reports, including whether it panics (a non-finite `N` field) or returns the unsupported-variant error (a binary or set field). The model always takes the failure of the least failing key.
- Decode.DecodeMap: says only that the failure is that of some failing field, not which one, because the source's `HashMap` order does not fix it.
- Decode.DecodeFieldsLoop: on failure, says only that the result is the failure of some visited failing field, for the same reason.
- Agent.GetItem: on failure, says only that the result is the failure of some failing field, for the same reason.
