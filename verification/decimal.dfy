/**
 * Decimal text of unsigned integers: the `Display` of a twilight `Id`
 * (its `u64` in base ten), chrono's zero-padded date fields, and
 * `str::parse::<u64>`.
 */
module Decimal {
  import opened Types

  predicate IsDigit(c: char)
  {
    '0' <= c <= '9'
  }

  predicate AllDigits(s: string)
  {
    forall i :: 0 <= i < |s| ==> IsDigit(s[i])
  }

  function DigitChar(d: nat): (c: char)
    requires d < 10
    ensures IsDigit(c) && c as int - '0' as int == d
  {
    (d + '0' as int) as char
  }

  /** The base-ten text of `n`, without leading zeros. */
  function ToDecimal(n: nat): (s: string)
    ensures 1 <= |s| && AllDigits(s)
    ensures s[0] == '0' ==> n == 0
  {
    if n < 10 then [DigitChar(n)] else ToDecimal(n / 10) + [DigitChar(n % 10)]
  }

  /** The value of a string of digits, read in base ten. */
  function DigitsValue(s: string): nat
    requires AllDigits(s)
  {
    if s == [] then 0 else DigitsValue(s[..|s| - 1]) * 10 + (s[|s| - 1] as int - '0' as int)
  }

  /** Reading back the decimal text of `n` gives `n`. */
  lemma {:induction false} DecimalRoundTrip(n: nat)
    ensures DigitsValue(ToDecimal(n)) == n
    decreases n
  {
    if n >= 10 {
      DecimalRoundTrip(n / 10);
      var s := ToDecimal(n);
      assert s[..|s| - 1] == ToDecimal(n / 10);
    }
  }

  /**
   * `s.parse::<u64>()`: an optional leading `+`, then at least one ASCII
   * digit and nothing else, with a value below 2^64.
   */
  function ParseU64(s: string): (r: Option<U64>)
    ensures r.Some? ==> |s| >= 1 && (IsDigit(s[0]) || s[0] == '+')
    ensures var d := if |s| > 0 && s[0] == '+' then s[1..] else s;
      (d == [] || !AllDigits(d) ==> r.None?)
      && (d != [] && AllDigits(d) ==> (r.Some? <==> DigitsValue(d) < U64Limit))
      && (r.Some? ==> d != [] && AllDigits(d) && r.value == DigitsValue(d))
  {
    var digits := if |s| > 0 && s[0] == '+' then s[1..] else s;
    if |digits| == 0 || !AllDigits(digits) then None
    else
      var v := DigitsValue(digits);
      if v < U64Limit then Some(v) else None
  }

  /** A `u64` printed in decimal parses back to itself. */
  lemma ParseDisplayed(n: U64)
    ensures ParseU64(ToDecimal(n)) == Some(n)
  {
    DecimalRoundTrip(n);
  }

  /** `n` in decimal, left-padded with zeros to `width` characters. */
  function ZeroPad(n: nat, width: nat): (s: string)
    ensures AllDigits(s) && |s| >= width
    ensures 1 <= width && n < Pow10(width) ==> |s| == width
  {
    var d := ToDecimal(n);
    DecimalLength(n, width);
    if |d| >= width then d else seq(width - |d|, _ => '0') + d
  }

  function Pow10(k: nat): nat
  {
    if k == 0 then 1 else 10 * Pow10(k - 1)
  }

  /** A number below 10^k needs at most k digits (and always at least one). */
  lemma {:induction false} DecimalLength(n: nat, k: nat)
    ensures n < Pow10(k) && k >= 1 ==> |ToDecimal(n)| <= k
    decreases k
  {
    if n >= 10 && k >= 2 && n < Pow10(k) {
      DecimalLength(n / 10, k - 1);
    }
  }
}
