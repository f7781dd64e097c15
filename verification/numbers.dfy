/**
  The literal parsers the engine relies on: Rust's `str::parse` for `i64`,
  `usize` (on a 64-bit target) and `bool`. Each is given with its inverse,
  the decimal rendering of a number, and a round-trip lemma.
 */
module Numbers {

  import opened Wrappers

  const I64Min: int := -0x8000_0000_0000_0000
  const I64Max: int := 0x7FFF_FFFF_FFFF_FFFF
  const UsizeMax: int := 0xFFFF_FFFF_FFFF_FFFF

  predicate IsDigit(c: char) {
    '0' <= c <= '9'
  }

  predicate AllDigits(s: string) {
    forall i :: 0 <= i < |s| ==> IsDigit(s[i])
  }

  function DigitValue(c: char): (d: nat)
    requires IsDigit(c)
    ensures d < 10
  {
    (c as int - '0' as int) as nat
  }

  function DigitChar(d: nat): (c: char)
    requires d < 10
    ensures IsDigit(c) && DigitValue(c) == d
  {
    (d + '0' as int) as char
  }

  /** The value of a string of decimal digits, most significant first. */
  function DigitsValue(s: string): (n: nat)
    requires AllDigits(s)
  {
    if |s| == 0 then 0 else DigitsValue(s[..|s| - 1]) * 10 + DigitValue(s[|s| - 1])
  }

  /** The decimal digits of a natural number, without leading zeros. */
  function Decimal(n: nat): (s: string)
    ensures |s| > 0 && AllDigits(s)
    ensures |s| > 1 ==> s[0] != '0'
  {
    if n < 10 then [DigitChar(n)] else Decimal(n / 10) + [DigitChar(n % 10)]
  }

  lemma {:induction false} DecimalValue(n: nat)
    ensures DigitsValue(Decimal(n)) == n
  {
    if n >= 10 {
      DecimalValue(n / 10);
      var s := Decimal(n);
      assert s[..|s| - 1] == Decimal(n / 10);
    }
  }

  /** An optional sign followed by the digits that remain, as `from_str_radix` splits it. */
  function SignAndDigits(s: string, signed: bool): (r: (bool, string))
    ensures |r.1| <= |s|
  {
    if |s| > 0 && s[0] == '+' then (false, s[1..])
    else if signed && |s| > 0 && s[0] == '-' then (true, s[1..])
    else (false, s)
  }

  /**
    `s.parse::<i64>()`: an optional `+` or `-`, then at least one decimal
    digit and nothing else, with a value in the `i64` range.
   */
  function ParseI64(s: string): (r: Option<int>)
    ensures r.Some? ==> I64Min <= r.value <= I64Max
  {
    var (negative, digits) := SignAndDigits(s, true);
    if |digits| == 0 || !AllDigits(digits) then None
    else
      var magnitude: int := DigitsValue(digits);
      var value := if negative then -magnitude else magnitude;
      if I64Min <= value <= I64Max then Some(value) else None
  }

  /**
    `s.parse::<usize>()`: an optional `+` (a `-` is an invalid digit for an
    unsigned type), then at least one decimal digit, at most `2^64 - 1`.
   */
  function ParseUsize(s: string): (r: Option<nat>)
    ensures r.Some? ==> r.value <= UsizeMax
  {
    var (_, digits) := SignAndDigits(s, false);
    if |digits| == 0 || !AllDigits(digits) then None
    else if DigitsValue(digits) <= UsizeMax then Some(DigitsValue(digits))
    else None
  }

  /** `s.parse::<bool>()`: exactly `true` or `false`. */
  function ParseBool(s: string): (r: Option<bool>)
    ensures r.Some? <==> s == "true" || s == "false"
    ensures r.Some? ==> r.value == (s == "true")
  {
    if s == "true" then Some(true) else if s == "false" then Some(false) else None
  }

  /** `to_string` of an `i64`. */
  function IntToString(n: int): string {
    if n < 0 then "-" + Decimal(-n) else Decimal(n)
  }

  /** `bool::to_string`. */
  function BoolToString(b: bool): (s: string)
    ensures ParseBool(s) == Some(b)
  {
    if b then "true" else "false"
  }

  /** Every `i64` survives a round trip through its decimal rendering. */
  lemma ParseI64RoundTrip(n: int)
    requires I64Min <= n <= I64Max
    ensures ParseI64(IntToString(n)) == Some(n)
  {
    var s := IntToString(n);
    if n < 0 {
      DecimalValue(-n);
      assert s[0] == '-' && s[1..] == Decimal(-n);
      assert SignAndDigits(s, true) == (true, Decimal(-n));
    } else {
      DecimalValue(n);
      assert s == Decimal(n) && IsDigit(s[0]);
      assert SignAndDigits(s, true) == (false, s);
    }
  }

  /** Every `usize` survives a round trip through its decimal rendering. */
  lemma ParseUsizeRoundTrip(n: nat)
    requires n <= UsizeMax
    ensures ParseUsize(Decimal(n)) == Some(n)
  {
    DecimalValue(n);
  }

  /** The empty string, and a lone sign, are never numbers. */
  lemma NoDigitsIsNoNumber()
    ensures ParseI64("") == None && ParseI64("-") == None && ParseI64("+") == None
    ensures ParseUsize("") == None && ParseUsize("+") == None && ParseUsize("-1") == None
  {
    assert "-1"[0] == '-';
  }
}
