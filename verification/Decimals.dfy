/** Unsigned 64-bit integers as decimal text, the way Rust prints and parses them. */
module Decimals {
  import opened Outcomes

  const U64_LIMIT := 0x1_0000_0000_0000_0000

  predicate IsDigit(c: char) {
    '0' <= c <= '9'
  }

  function DigitOf(d: nat): char
    requires d < 10
  {
    '0' + d as char
  }

  function ValueOf(c: char): nat
    requires IsDigit(c)
  {
    (c - '0') as nat
  }

  /** `format!("{n}")`: no sign, no leading zeros. */
  function Digits(n: nat): (text: string)
    ensures text != [] && AllDigits(text)
  {
    if n < 10 then [DigitOf(n)] else Digits(n / 10) + [DigitOf(n % 10)]
  }

  predicate AllDigits(text: string) {
    forall i :: 0 <= i < |text| ==> IsDigit(text[i])
  }

  function Value(text: string): nat
    requires AllDigits(text)
  {
    if text == [] then 0 else 10 * Value(text[..|text| - 1]) + ValueOf(text[|text| - 1])
  }

  /** `str::parse::<u64>`: an optional plus sign, at least one digit, and no overflow. */
  function ParseU64(text: string): Option<nat> {
    var digits := if text != [] && text[0] == '+' then text[1..] else text;
    if digits == [] || !AllDigits(digits) || Value(digits) >= U64_LIMIT then None
    else Some(Value(digits))
  }

  /** The text is `digits`, or that with a plus sign before it. */
  predicate Reads(text: string, digits: string) {
    digits != [] && AllDigits(digits) && (text == digits || text == "+" + digits)
  }

  /** What parses, and as what: digits, possibly signed plus, whose value fits in 64 bits. */
  lemma ParseU64Exactly(text: string, n: nat)
    ensures ParseU64(text) == Some(n) <==>
            n < 0x1_0000_0000_0000_0000 && exists digits :: Reads(text, digits) && Value(digits) == n
  {
    if text != [] && text[0] == '+' {
      assert text == "+" + text[1..];
      assert ParseU64(text).Some? ==> Reads(text, text[1..]);
    } else {
      assert ParseU64(text).Some? ==> Reads(text, text);
    }
    if digits :| Reads(text, digits) && Value(digits) == n {
      assert IsDigit(digits[0]);
      assert text == "+" + digits ==> text[1..] == digits;
    }
  }

  /** Printed numbers have no leading zero. */
  lemma {:induction false} DigitsAreCanonical(n: nat)
    ensures n >= 10 ==> Digits(n)[0] != '0'
    ensures n > 0 ==> Digits(n)[0] != '0'
  {
    if n >= 10 {
      DigitsAreCanonical(n / 10);
    }
  }

  lemma {:induction false} ValueOfDigits(n: nat)
    ensures Value(Digits(n)) == n
  {
    if n >= 10 {
      ValueOfDigits(n / 10);
      assert Digits(n)[..|Digits(n)| - 1] == Digits(n / 10);
    }
  }

  /** Printing and parsing back is the identity on what fits in 64 bits. */
  lemma ParseDigits(n: nat)
    requires n < U64_LIMIT
    ensures ParseU64(Digits(n)) == Some(n)
  {
    ValueOfDigits(n);
    assert IsDigit(Digits(n)[0]);
  }
}
