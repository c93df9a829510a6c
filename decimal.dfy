/**
 * Decimal text for unsigned integers: what Rust's `u32::from_str` accepts
 * from a DBC file and what `u64::to_string` prints for a stored timestamp.
 */
module Decimal {
  import opened Wrappers

  const U32_LIMIT: nat := 0x1_0000_0000

  predicate IsDigit(c: char)
  {
    '0' <= c <= '9'
  }

  predicate AllDigits(s: string)
  {
    forall i :: 0 <= i < |s| ==> IsDigit(s[i])
  }

  function DigitValue(c: char): (d: nat)
    requires IsDigit(c)
    ensures d < 10
  {
    c as int - '0' as int
  }

  function DigitChar(d: nat): (c: char)
    requires d < 10
    ensures IsDigit(c) && DigitValue(c) == d
  {
    ('0' as int + d) as char
  }

  /** The value of a run of decimal digits, most significant first. */
  function DigitsValue(s: string): nat
    requires AllDigits(s)
  {
    if s == [] then 0 else DigitsValue(s[..|s| - 1]) * 10 + DigitValue(s[|s| - 1])
  }

  /**
   * `u32::from_str`: an optional leading '+', then at least one decimal
   * digit and nothing else, with a value below 2^32. A lone sign, a '-',
   * any other character and an overflowing value are all refused.
   */
  function ParseU32(s: string): (r: Option<nat>)
    ensures r.Some? ==> r.value < U32_LIMIT
  {
    var digits := if |s| > 0 && s[0] == '+' then s[1..] else s;
    if digits == [] || !AllDigits(digits) then None
    else if DigitsValue(digits) >= U32_LIMIT then None
    else Some(DigitsValue(digits))
  }

  /** `to_string` of an unsigned integer: the shortest decimal spelling, "0" for zero. */
  function DecimalString(n: nat): (s: string)
    ensures |s| > 0 && AllDigits(s)
    decreases n
  {
    if n < 10 then [DigitChar(n)] else DecimalString(n / 10) + [DigitChar(n % 10)]
  }

  /** Reading back a printed number gives the number. */
  lemma {:induction false} DecimalStringValue(n: nat)
    ensures DigitsValue(DecimalString(n)) == n
    decreases n
  {
    var s := DecimalString(n);
    if n >= 10 {
      DecimalStringValue(n / 10);
      assert s[..|s| - 1] == DecimalString(n / 10);
    }
  }

  /** Printing never starts with '0' except for zero itself, and never starts with a sign. */
  lemma {:induction false} DecimalStringCanonical(n: nat)
    ensures (DecimalString(n)[0] == '0') <==> n == 0
    decreases n
  {
    if n >= 10 {
      DecimalStringCanonical(n / 10);
    }
  }

  /** Every u32 printed in decimal parses back to itself. */
  lemma ParseDecimalString(n: nat)
    requires n < U32_LIMIT
    ensures ParseU32(DecimalString(n)) == Some(n)
  {
    DecimalStringValue(n);
  }

  /** `from_str` succeeds exactly on an optional '+' followed by digits whose value fits in 32 bits. */
  lemma ParseU32Iff(s: string)
    ensures ParseU32(s).Some? <==>
      exists sign: string, digits: string ::
        (sign == "" || sign == "+") && s == sign + digits &&
        |digits| > 0 && AllDigits(digits) && DigitsValue(digits) < U32_LIMIT
  {
    var digits := if |s| > 0 && s[0] == '+' then s[1..] else s;
    var sign := if |s| > 0 && s[0] == '+' then "+" else "";
    assert s == sign + digits;
    if ParseU32(s).None? {
      forall sign': string, digits': string |
        (sign' == "" || sign' == "+") && s == sign' + digits' && |digits'| > 0 && AllDigits(digits')
        ensures DigitsValue(digits') >= U32_LIMIT
      {
        if sign' == "" {
          assert digits' == s;
          assert s[0] == digits'[0];
          assert IsDigit(s[0]);
        } else {
          assert s[0] == '+';
          assert digits' == s[1..];
        }
      }
    }
  }
}
