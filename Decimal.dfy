/**
 * The integer conversions of printf that the inspector uses: `%lld`, `%ld`
 * (signed), `%lu` and `%u` (unsigned). All of them print the shortest decimal
 * numeral, with a leading '-' for a negative value and no padding.
 *
 * The partner of the printer is a parser; the round trip
 * `Parse(Show(n)) == Some(n)` says the printed text carries the exact value.
 */
module Decimal {

  datatype Option<T> = None | Some(value: T)

  /** Signed 64-bit range (`long long`, `off_t`, `time_t` on LP64). */
  const INT64_MIN: int := -0x8000_0000_0000_0000
  const INT64_MAX: int := 0x7FFF_FFFF_FFFF_FFFF
  type Int64 = x: int | INT64_MIN <= x <= INT64_MAX

  /** Unsigned ranges (`unsigned long`, `unsigned int`). */
  type UInt64 = x: int | 0 <= x < 0x1_0000_0000_0000_0000
  type UInt32 = x: int | 0 <= x < 0x1_0000_0000

  predicate IsDigit(c: char) {
    '0' <= c <= '9'
  }

  function DigitChar(d: int): (c: char)
    requires 0 <= d < 10
    ensures IsDigit(c) && c as int - '0' as int == d
  {
    ('0' as int + d) as char
  }

  function DigitValue(c: char): (d: nat)
    requires IsDigit(c)
    ensures d < 10
  {
    c as int - '0' as int
  }

  /** The digits of a natural number, most significant first. */
  function Digits(n: nat): (s: string)
    ensures |s| > 0
    ensures forall i :: 0 <= i < |s| ==> IsDigit(s[i])
    ensures |s| > 1 ==> s[0] != '0'
  {
    if n < 10 then [DigitChar(n)] else Digits(n / 10) + [DigitChar(n % 10)]
  }

  /** What printf writes for an integer argument. */
  function Show(n: int): (s: string)
    ensures |s| > 0
    ensures s[0] == '-' <==> n < 0
    ensures n >= 0 ==> AllDigits(s)
  {
    if n < 0 then "-" + Digits(-n) else Digits(n)
  }

  predicate AllDigits(s: string) {
    forall i :: 0 <= i < |s| ==> IsDigit(s[i])
  }

  /** The value of a string of digits, most significant first. */
  function DigitsValue(s: string): (n: nat)
    requires AllDigits(s)
  {
    if s == [] then 0 else DigitsValue(s[..|s| - 1]) * 10 + DigitValue(s[|s| - 1])
  }

  /** Reads back a numeral of the form Show writes; anything else is None. */
  function Parse(s: string): (r: Option<int>)
    ensures r.Some? ==> |s| > 0
  {
    if |s| > 0 && s[0] == '-' then
      if |s| > 1 && AllDigits(s[1..]) then Option<int>.Some(-(DigitsValue(s[1..]) as int)) else None
    else if |s| > 0 && AllDigits(s) then Some(DigitsValue(s))
    else None
  }

  lemma {:induction false} DigitsRoundTrip(n: nat)
    ensures AllDigits(Digits(n)) && DigitsValue(Digits(n)) == n
  {
    if n >= 10 {
      var s := Digits(n / 10);
      DigitsRoundTrip(n / 10);
      var t := s + [DigitChar(n % 10)];
      assert t[..|t| - 1] == s;
      assert DigitsValue(t) == DigitsValue(s) * 10 + n % 10;
    }
  }

  /** Printing then parsing gives back the number: the text is exact. */
  lemma ShowRoundTrip(n: int)
    ensures Parse(Show(n)) == Some(n)
  {
    if n < 0 {
      DigitsRoundTrip(-n);
      ParseNegative(Digits(-n));
    } else {
      DigitsRoundTrip(n);
    }
  }

  /** A '-' followed by digits reads back as the negated value of the digits. */
  lemma ParseNegative(s: string)
    requires |s| > 0 && AllDigits(s)
    ensures Parse("-" + s) == Some(-(DigitsValue(s) as int))
  {
    assert ("-" + s)[1..] == s;
  }

  /** Show is injective: two different numbers never print the same. */
  lemma ShowInjective(m: int, n: int)
    requires Show(m) == Show(n)
    ensures m == n
  {
    ShowRoundTrip(m);
    ShowRoundTrip(n);
  }
}
