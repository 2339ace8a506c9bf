/** Decimal text of 64-bit integers: Rust's `to_string` on `i64`/`u64` and
    `str::parse::<i64>`. */
module DecimalText {

  import opened Errors
  import opened Numbers

  predicate IsDigit(c: char) {
    '0' <= c <= '9'
  }

  predicate AllDigits(s: string) {
    forall k :: 0 <= k < |s| ==> IsDigit(s[k])
  }

  function DigitChar(d: int): (c: char)
    requires 0 <= d < 10
    ensures IsDigit(c)
  {
    ('0' as int + d) as char
  }

  function DigitValue(c: char): (d: int)
    requires IsDigit(c)
    ensures 0 <= d < 10 && DigitChar(d) == c
  {
    c as int - '0' as int
  }

  /** The decimal digits of `n`, most significant first, with no leading zero. */
  function NatDigits(n: nat): string
    decreases n
  {
    if n < 10 then [DigitChar(n)] else NatDigits(n / 10) + [DigitChar(n % 10)]
  }

  /** `to_string` of an integer: a minus sign for negatives, then the digits. */
  function Decimal(i: int): string {
    if i < 0 then "-" + NatDigits(-i) else NatDigits(i)
  }

  /** The value of a run of decimal digits, read most significant first. */
  function DigitsValue(s: string): nat
    requires AllDigits(s)
    decreases |s|
  {
    if s == [] then 0 else DigitsValue(s[..|s| - 1]) * 10 + DigitValue(s[|s| - 1])
  }

  /** `str::parse::<i64>`: an optional `+` or `-`, then at least one ASCII
      digit and nothing else; a value outside the `i64` range is an error. */
  function ParseI64(s: string): (r: Option<int>)
    ensures r.Some? ==> I64_MIN <= r.value <= I64_MAX
    ensures r.Some? ==> |s| > 0 && (IsDigit(s[0]) || s[0] == '+' || s[0] == '-')
    ensures r.Some? ==>
      var digits := if s[0] == '+' || s[0] == '-' then s[1..] else s;
      |digits| > 0 && AllDigits(digits) &&
      r.value == if s[0] == '-' then -(DigitsValue(digits) as int) else DigitsValue(digits)
  {
    if |s| == 0 then None
    else if (s[0] == '+' || s[0] == '-') && |s| == 1 then None
    else
      var negative := s[0] == '-';
      var digits := if s[0] == '+' || s[0] == '-' then s[1..] else s;
      if !AllDigits(digits) then None
      else
        var v: int := if negative then -(DigitsValue(digits) as int) else DigitsValue(digits);
        if I64_MIN <= v <= I64_MAX then Some(v) else None
  }

  /** A run of digits with no sign (leading zeros included) reads as its
      value when that fits in an `i64`, and is refused otherwise. */
  lemma ParseI64Unsigned(digits: string)
    requires |digits| > 0 && AllDigits(digits)
    ensures var v := DigitsValue(digits);
      ParseI64(digits) == if v <= I64_MAX then Some(v) else None
  {
    assert IsDigit(digits[0]) && digits[0] != '+' && digits[0] != '-';
  }

  /** A `+` or `-` followed by a run of digits (leading zeros and "-0"
      included) reads as the signed value of the digits when that lies in the
      `i64` range, and is refused otherwise. */
  lemma ParseI64WithSign(s: string)
    requires |s| > 1 && (s[0] == '+' || s[0] == '-') && AllDigits(s[1..])
    ensures var v: int := if s[0] == '-' then -(DigitsValue(s[1..]) as int) else DigitsValue(s[1..]);
      ParseI64(s) == if I64_MIN <= v <= I64_MAX then Some(v) else None
  {
  }

  /** The digits of `n` are a non-empty run of digits that reads back as `n`. */
  lemma {:induction false} NatDigitsRoundTrip(n: nat)
    ensures |NatDigits(n)| > 0 && AllDigits(NatDigits(n))
    ensures DigitsValue(NatDigits(n)) == n
    decreases n
  {
    var s := NatDigits(n);
    if n < 10 {
      assert s[..|s| - 1] == [];
    } else {
      NatDigitsRoundTrip(n / 10);
      assert s[..|s| - 1] == NatDigits(n / 10);
      assert DigitValue(s[|s| - 1]) == n % 10;
    }
  }

  /** Every `i64` written out by `to_string` parses back to itself. */
  lemma DecimalRoundTrip(i: int)
    requires I64_MIN <= i <= I64_MAX
    ensures ParseI64(Decimal(i)) == Some(i)
  {
    var text := Decimal(i);
    if i < 0 {
      var digits := NatDigits(-i);
      NatDigitsRoundTrip(-i);
      assert text[0] == '-' && |text| > 1 && text[1..] == digits;
    } else {
      var digits := NatDigits(i);
      NatDigitsRoundTrip(i);
      assert text == digits && IsDigit(text[0]);
    }
  }

  /** A `u64` above `i64::MAX` written out by `to_string` does not parse as an
      `i64`: the text is well formed but the value overflows. */
  lemma DecimalAboveI64Max(u: int)
    requires I64_MAX < u <= U64_MAX
    ensures ParseI64(Decimal(u)) == None
    ensures AllDigits(Decimal(u)) && DigitsValue(Decimal(u)) == u
  {
    NatDigitsRoundTrip(u);
  }
}
