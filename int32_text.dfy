/**
  32-bit integers and their decimal text: the part of the .NET base library the mapper
  relies on through `int.TryParse` (value coercion) and `int.Parse` (shared-string indices).
  Parsing accepts an optional leading sign and one or more ASCII digits, and fails when the
  value falls outside the 32-bit range.
*/
module Int32Text {
  import opened Wrappers

  const MinInt32: int := -0x8000_0000
  const MaxInt32: int := 0x7FFF_FFFF

  /** The C# `int` type. */
  newtype int32 = x: int | -0x8000_0000 <= x <= 0x7FFF_FFFF

  predicate IsDigit(c: char) {
    '0' <= c <= '9'
  }

  predicate AllDigits(s: string) {
    forall i :: 0 <= i < |s| ==> IsDigit(s[i])
  }

  function DigitValue(c: char): (d: nat)
    requires IsDigit(c)
    ensures d < 10
  {
    c as int - '0' as int
  }

  /** The value of a string of decimal digits, most significant digit first. */
  function DigitsValue(s: string): nat
    requires AllDigits(s)
  {
    if s == [] then 0 else DigitsValue(s[..|s| - 1]) * 10 + DigitValue(s[|s| - 1])
  }

  /** `int.TryParse(s, out n)`: `Some(n)` on success, `None` when `s` is not an integer in range. */
  function ParseInt32(s: string): (r: Option<int>)
    ensures r.Some? ==> MinInt32 <= r.value <= MaxInt32
    ensures r.Some? ==> exists i :: 0 <= i < |s| && IsDigit(s[i])
  {
    var signed := |s| > 0 && (s[0] == '-' || s[0] == '+');
    var digits := if signed then s[1..] else s;
    if digits == [] || !AllDigits(digits) then None
    else
      assert IsDigit(s[|s| - 1]);
      var n: int := if signed && s[0] == '-' then -(DigitsValue(digits) as int) else DigitsValue(digits);
      if MinInt32 <= n <= MaxInt32 then Some(n) else None
  }

  /** The value a sign ("", "+" or "-") and a digit string stand for. */
  function SignedValue(sign: string, digits: string): int
    requires AllDigits(digits)
  {
    if sign == "-" then -(DigitsValue(digits) as int) else DigitsValue(digits)
  }

  /**
    What `ParseInt32` accepts and what it yields. Every text splits into an optional sign and
    the rest (`sign` is empty when the text does not start with one); the text parses exactly
    when the rest is one or more ASCII digits whose signed value fits in 32 bits, and then it
    yields that value. So "+5" and "007" parse, "2147483648", "1a", "-" and "" do not.
  */
  lemma ParseInt32Grammar(sign: string, digits: string)
    requires sign == "" || sign == "+" || sign == "-"
    requires sign == "" ==> digits == [] || (digits[0] != '+' && digits[0] != '-')
    ensures ParseInt32(sign + digits).Some? <==>
      digits != [] && AllDigits(digits) && MinInt32 <= SignedValue(sign, digits) <= MaxInt32
    ensures ParseInt32(sign + digits).Some? ==> ParseInt32(sign + digits).value == SignedValue(sign, digits)
  {
    var s := sign + digits;
    if sign == "" {
      assert s == digits;
    } else {
      assert s[0] == sign[0] && s[1..] == digits;
    }
  }

  /** Texts other than the canonical form of their value parse too. */
  lemma ParseInt32AcceptsNonCanonical()
    ensures ParseInt32("+5") == Some(5)
    ensures ParseInt32("007") == Some(7)
  {
    ParseInt32Grammar("+", "5");
    ParseInt32Grammar("", "007");
    assert "007"[..2] == "00" && "00"[..1] == "0";
  }

  /** A text with a character other than a digit after its sign, or with no digit, does not parse. */
  lemma ParseInt32RejectsMalformed()
    ensures ParseInt32("1a") == None
    ensures ParseInt32("-") == None
  {
    ParseInt32Grammar("", "1a");
    assert !IsDigit("1a"[1]);
    ParseInt32Grammar("-", "");
  }

  function DigitChar(d: nat): (c: char)
    requires d < 10
    ensures IsDigit(c) && DigitValue(c) == d
  {
    ('0' as int + d) as char
  }

  /** The shortest decimal text of `n`. */
  function NatToText(n: nat): (s: string)
    ensures s != [] && AllDigits(s)
  {
    if n < 10 then [DigitChar(n)] else NatToText(n / 10) + [DigitChar(n % 10)]
  }

  /** `n.ToString()` for an integer: a minus sign for negative values, then the digits. */
  function IntToText(n: int): (s: string)
    ensures s != []
  {
    if n < 0 then "-" + NatToText(-n) else NatToText(n)
  }

  /** Reading back the digits that `NatToText` writes gives the number again. */
  lemma {:induction false} NatTextRoundTrip(n: nat)
    ensures DigitsValue(NatToText(n)) == n
  {
    if n >= 10 {
      var s := NatToText(n);
      NatTextRoundTrip(n / 10);
      assert s[..|s| - 1] == NatToText(n / 10);
    }
  }

  /** Every 32-bit integer survives a trip through its text: `int.TryParse(n.ToString())` yields `n`. */
  lemma ParseIntToText(n: int)
    requires MinInt32 <= n <= MaxInt32
    ensures ParseInt32(IntToText(n)) == Some(n)
  {
    var s := IntToText(n);
    if n < 0 {
      var digits := NatToText(-n);
      NatTextRoundTrip(-n);
      assert s[0] == '-' && s[1..] == digits;
      assert -(DigitsValue(digits) as int) == n;
    } else {
      NatTextRoundTrip(n);
      assert s[0] != '-' && s[0] != '+';
    }
  }
}
