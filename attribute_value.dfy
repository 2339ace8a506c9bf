/** DynamoDB's tagged wire value: the SDK's `AttributeValue` enum. */
module AttributeValues {

  /** Every variant of `AttributeValue`. `Unknown` is the SDK's catch-all for
      variants newer than the client. */
  datatype AV =
    | B(blob: seq<bv8>)
    | Bool(b: bool)
    | Bs(blobs: seq<seq<bv8>>)
    | L(items: seq<AV>)
    | M(fields: map<string, AV>)
    | N(n: string)
    | Ns(numbers: seq<string>)
    | Null(flag: bool)
    | S(s: string)
    | Ss(strings: seq<string>)
    | Unknown

  /** The variants the decoder accepts; the others are binary, sets and
      `Unknown`. */
  predicate Supported(av: AV) {
    av.S? || av.N? || av.Bool? || av.Null? || av.L? || av.M?
  }
}
