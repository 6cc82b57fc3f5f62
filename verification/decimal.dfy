/**
 * Decimal text for 64-bit signed integers, as Go's `fmt.Sprintf("%d", n)`
 * prints it and `strconv.ParseInt(s, 10, 64)` reads it.
 */
module Decimal {
  import opened Wrappers

  const MinInt64: int := -0x8000_0000_0000_0000
  const MaxInt64: int := 0x7fff_ffff_ffff_ffff

  type Int64 = x: int | MinInt64 <= x <= MaxInt64

  /** `*strconv.NumError` from `ParseInt` or `ParseFloat`, carrying the text that was rejected. */
  datatype NumError = NumError(text: string)

  predicate IsDigit(c: char)
  {
    '0' <= c <= '9'
  }

  predicate AllDigits(s: string)
  {
    forall i :: 0 <= i < |s| ==> IsDigit(s[i])
  }

  function DigitChar(d: nat): (c: char)
    requires d < 10
    ensures IsDigit(c) && c as int - '0' as int == d
  {
    ('0' as int + d) as char
  }

  /** The number a string of decimal digits denotes (leading zeros allowed). */
  function DigitsValue(s: string): nat
    requires AllDigits(s)
    decreases |s|
  {
    if s == [] then 0 else 10 * DigitsValue(s[..|s| - 1]) + (s[|s| - 1] as int - '0' as int)
  }

  /** Digits without a superfluous leading zero: "0" or a string starting with 1-9. */
  predicate IsCanonicalDigits(s: string)
  {
    |s| >= 1 && AllDigits(s) && (s[0] != '0' || |s| == 1)
  }

  /** The decimal digits of `n`, most significant first. */
  function FormatNat(n: nat): (s: string)
    ensures IsCanonicalDigits(s)
    ensures DigitsValue(s) == n
    decreases n
  {
    if n < 10 then [DigitChar(n)]
    else
      var s := FormatNat(n / 10) + [DigitChar(n % 10)];
      assert s[..|s| - 1] == FormatNat(n / 10);
      s
  }

  /** `fmt.Sprintf("%d", n)`: a minus sign for negative numbers, then the digits. */
  function FormatInt(n: int): (r: string)
    ensures IsCanonical(r)
    ensures IsDecimalText(r) && TextValue(r) == n
  {
    if n < 0 then
      var digits := FormatNat(-n);
      assert digits[0] != '0';
      assert ("-" + digits)[1..] == digits;
      "-" + digits
    else
      var digits := FormatNat(n);
      assert IsDigit(digits[0]);
      digits
  }

  /** The text `%d` prints for some integer: canonical digits with an optional `-` before a non-zero value. */
  predicate IsCanonical(s: string)
  {
    IsCanonicalDigits(s) || (|s| >= 2 && s[0] == '-' && IsCanonicalDigits(s[1..]) && s[1] != '0')
  }

  /** The text starts with a `+` or `-` sign. */
  predicate HasSign(s: string)
  {
    |s| > 0 && (s[0] == '+' || s[0] == '-')
  }

  /** Decimal text: an optional sign, then one or more ASCII digits and nothing else. */
  predicate IsDecimalText(s: string)
  {
    var digits := if HasSign(s) then s[1..] else s;
    |digits| >= 1 && AllDigits(digits)
  }

  /** The signed number decimal text denotes. */
  function TextValue(s: string): int
    requires IsDecimalText(s)
  {
    if s[0] == '-' then -(DigitsValue(s[1..]) as int)
    else if s[0] == '+' then DigitsValue(s[1..])
    else DigitsValue(s)
  }

  /** Decimal text whose value fits in a signed 64-bit integer. */
  predicate IsInt64Text(s: string)
  {
    IsDecimalText(s) && MinInt64 <= TextValue(s) <= MaxInt64
  }

  /**
   * `strconv.ParseInt(s, 10, 64)`: it accepts exactly the decimal text whose
   * value fits in 64 bits and returns that value; anything else is an error
   * carrying the text.
   */
  function ParseInt64(s: string): (r: Result<Int64, NumError>)
    ensures r.Success? <==> IsInt64Text(s)
    ensures r.Success? ==> r.value == TextValue(s)
    ensures r.Failure? ==> r.error == NumError(s)
  {
    var negative := |s| > 0 && s[0] == '-';
    var digits := if |s| > 0 && (s[0] == '+' || s[0] == '-') then s[1..] else s;
    if |digits| == 0 || !AllDigits(digits) then Failure(NumError(s))
    else
      var magnitude: int := DigitsValue(digits);
      if !negative && magnitude > MaxInt64 then Failure(NumError(s))
      else if negative && magnitude > -MinInt64 then Failure(NumError(s))
      else Success(if negative then -magnitude else magnitude)
  }

  /** A string of canonical digits is the printing of the number it denotes. */
  lemma {:induction false} FormatDigitsValue(s: string)
    requires IsCanonicalDigits(s)
    ensures FormatNat(DigitsValue(s)) == s
    decreases |s|
  {
    var c := s[|s| - 1];
    var d := c as int - '0' as int;
    if |s| == 1 {
      DigitCharOf(c);
      assert DigitsValue(s) == d;
    } else {
      var p := s[..|s| - 1];
      assert IsCanonicalDigits(p) && p[0] != '0';
      FormatDigitsValue(p);
      LeadingDigitBound(p);
      var q := DigitsValue(p);
      assert DigitsValue(s) == 10 * q + d;
      LastDigit(q, d);
      DigitCharOf(c);
      assert FormatNat(10 * q + d) == FormatNat(q) + [DigitChar(d)];
      assert s == p + [c];
    }
  }

  /** `DigitChar` gives back the digit character a value was read from. */
  lemma DigitCharOf(c: char)
    requires IsDigit(c)
    ensures DigitChar(c as int - '0' as int) == c
  {
    assert '0' as int + (c as int - '0' as int) == c as int;
  }

  /** Appending the digit `d` to the number `q` and taking it off again. */
  lemma LastDigit(q: nat, d: nat)
    requires d < 10
    ensures (10 * q + d) / 10 == q && (10 * q + d) % 10 == d
  {
  }

  function Pow10(k: nat): (p: nat)
    ensures p >= 1
  {
    if k == 0 then 1 else 10 * Pow10(k - 1)
  }

  /** Digits that do not start with `0` denote at least 10^(length - 1). */
  lemma {:induction false} LeadingDigitBound(s: string)
    requires IsCanonicalDigits(s) && s[0] != '0'
    ensures DigitsValue(s) >= Pow10(|s| - 1)
    decreases |s|
  {
    if |s| > 1 {
      LeadingDigitBound(s[..|s| - 1]);
    }
  }

  /** Every int64 survives printing and parsing back. */
  lemma ParseFormat(n: Int64)
    ensures IsCanonical(FormatInt(n))
    ensures ParseInt64(FormatInt(n)) == Success(n)
  {
  }

  /** Canonical decimal text is the printing of the number it denotes. */
  lemma FormatTextValue(s: string)
    requires IsCanonical(s)
    ensures IsDecimalText(s) && FormatInt(TextValue(s)) == s
  {
    if s[0] == '-' {
      var digits := s[1..];
      assert s == "-" + digits;
      FormatNegative(digits);
    } else {
      assert !HasSign(s) && TextValue(s) == DigitsValue(s);
      FormatDigitsValue(s);
    }
  }

  /** A minus sign before canonical digits other than `0` is the printing of a negative number. */
  lemma FormatNegative(digits: string)
    requires IsCanonicalDigits(digits) && digits[0] != '0'
    ensures IsDecimalText("-" + digits) && FormatInt(TextValue("-" + digits)) == "-" + digits
  {
    NegativeTextValue(digits);
    var n := TextValue("-" + digits);
    calc {
      FormatInt(n);
      "-" + FormatNat(-n);
      { FormatDigitsValue(digits); }
      "-" + digits;
    }
  }

  /** A minus sign before canonical digits other than `0` denotes a negative number. */
  lemma NegativeTextValue(digits: string)
    requires IsCanonicalDigits(digits) && digits[0] != '0'
    ensures IsDecimalText("-" + digits)
    ensures TextValue("-" + digits) == -(DigitsValue(digits) as int) < 0
  {
    var s := "-" + digits;
    assert HasSign(s) && s[0] == '-' && s[1..] == digits;
    LeadingDigitBound(digits);
  }

  /** Canonical decimal text that parses prints back to the same text. */
  lemma FormatParse(s: string)
    requires IsCanonical(s) && ParseInt64(s).Success?
    ensures FormatInt(ParseInt64(s).value) == s
  {
    FormatTextValue(s);
  }

  /** A leading `+` and leading zeros are accepted, so parsing is not injective. */
  lemma ParseAcceptsSignAndZeros()
    ensures ParseInt64("+007") == Success(7)
    ensures ParseInt64("-0") == Success(0)
  {
    var digits := "+007"[1..];
    assert digits == "007" && AllDigits(digits);
    assert digits[..2] == "00" && digits[..2][..1] == "0" && digits[..2][..1][..0] == "";
    assert DigitsValue(digits[..2][..1]) == 0;
    assert DigitsValue(digits[..2]) == 0;
    assert DigitsValue(digits) == 7;
    assert "-0"[1..] == "0";
  }

  /** Text with no digit or with a foreign character is rejected. */
  lemma ParseRejectsSyntax()
    ensures ParseInt64("").Failure?
    ensures ParseInt64("-").Failure?
    ensures ParseInt64("1x").Failure?
  {
    assert !IsDigit("1x"[1]);
  }

  /** Twenty or more significant digits are out of the 64-bit range. */
  lemma ParseRejectsTooLong(s: string)
    requires IsCanonicalDigits(s) && s[0] != '0' && |s| >= 20
    ensures ParseInt64(s).Failure?
    ensures ParseInt64("-" + s).Failure?
  {
    LeadingDigitBound(s);
    Pow10Monotone(19, |s| - 1);
    Pow10Nineteen();
    assert ("-" + s)[1..] == s;
  }

  /** 10^19 is the first power of ten beyond the int64 range. */
  lemma Pow10Nineteen()
    ensures Pow10(19) == 10000000000000000000
  {
    assert Pow10(2) == 100 && Pow10(3) == 1000;
    Pow10Add(2, 2);
    Pow10Add(4, 4);
    Pow10Add(8, 8);
    Pow10Add(16, 3);
  }

  /** Powers of ten multiply by adding exponents. */
  lemma {:induction false} Pow10Add(j: nat, k: nat)
    ensures Pow10(j + k) == Pow10(j) * Pow10(k)
    decreases j
  {
    if j > 0 {
      Pow10Add(j - 1, k);
    }
  }

  lemma {:induction false} Pow10Monotone(j: nat, k: nat)
    requires j <= k
    ensures Pow10(j) <= Pow10(k)
    decreases k
  {
    if j < k {
      Pow10Monotone(j, k - 1);
    }
  }
}
