/** Machine numbers as the converters see them: the 64-bit integer ranges and
    IEEE 754 double precision values, kept as their bit patterns. */
module Numbers {

  import Errors

  const I64_MIN: int := -0x8000_0000_0000_0000
  const I64_MAX: int := 0x7FFF_FFFF_FFFF_FFFF
  const U64_MAX: int := 0xFFFF_FFFF_FFFF_FFFF

  type U64 = n: int | 0 <= n <= U64_MAX

  /** A negative `i64`. */
  type NegI64 = n: int | I64_MIN <= n < 0 witness -1

  /** An `f64`, as its 64-bit IEEE 754 encoding. */
  type F64 = bits: int | 0 <= bits <= U64_MAX

  /** The exponent field of an `f64`: bits 52 to 62. */
  function Exponent(f: F64): (e: int)
    ensures 0 <= e < 0x800
  {
    (f / 0x10_0000_0000_0000) % 0x800
  }

  /** Neither an infinity nor a NaN: the exponent field is not all ones. */
  predicate IsFinite(f: F64) {
    Exponent(f) != 0x7FF
  }

  type FiniteF64 = f: F64 | IsFinite(f)

  /** The text forms of `f64` that the converters rely on, which belong to
      Rust's standard library: `Display` (shortest text that reads back as the
      same value) and `FromStr` (`str::parse::<f64>`, which also accepts
      "inf", "NaN" and out-of-range exponents). Every lemma of this model
      holds for any pair of such functions; where a lemma needs a law of them
      it names it as a premise. */
  datatype FloatText = FloatText(display: FiniteF64 -> string, parse: string -> Errors.Option<F64>)
}
