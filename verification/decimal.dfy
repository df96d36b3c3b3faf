/** Decimal text of Java `long` values: `Long.toString` and `Long.parseLong`.
    `String.format("%d")` gives the same text only in a locale with ASCII
    digits and an ASCII minus sign, which the file names assume. Only ASCII
    digits are modelled. */
module Decimal {
  import opened Wrappers
  import opened Bytes

  predicate IsDigit(c: char) {
    '0' <= c <= '9'
  }

  predicate AllDigits(s: string) {
    forall i :: 0 <= i < |s| ==> IsDigit(s[i])
  }

  function DigitChar(d: nat): (c: char)
    requires d < 10
    ensures IsDigit(c)
  {
    ('0' as int + d) as char
  }

  function DigitValue(c: char): (d: nat)
    requires IsDigit(c)
    ensures d < 10
  {
    c as int - '0' as int
  }

  /** The value of a run of decimal digits (leading zeros allowed). */
  function DigitsValue(s: string): nat
    requires AllDigits(s)
  {
    if |s| == 0 then 0 else DigitsValue(s[..|s| - 1]) * 10 + DigitValue(s[|s| - 1])
  }

  /** The shortest decimal digits of `n`: no leading zero except for 0 itself. */
  function NatDigits(n: nat): (s: string)
    ensures 1 <= |s| && AllDigits(s)
    ensures DigitsValue(s) == n
    ensures s[0] == '0' ==> n == 0 && |s| == 1
  {
    if n < 10 then [DigitChar(n)]
    else
      var high := NatDigits(n / 10);
      var s := high + [DigitChar(n % 10)];
      assert s[..|s| - 1] == high;
      s
  }

  /** `Long.toString(n)`: an optional minus sign, then the shortest digits. */
  function Format(n: int): (s: string)
  {
    if n < 0 then "-" + NatDigits(-n) else NatDigits(n)
  }

  /** The mathematical value of an optionally signed decimal numeral, or None
      when the text is not one. `+` is accepted, as `Long.parseLong` does. */
  function NumeralValue(s: string): (r: Option<int>)
    ensures r.Some? ==> |s| >= 1
  {
    if |s| == 0 then None
    else if s[0] == '-' || s[0] == '+' then
      var digits := s[1..];
      if |digits| >= 1 && AllDigits(digits) then
        var magnitude: int := DigitsValue(digits);
        Some(if s[0] == '-' then -magnitude else magnitude)
      else None
    else if AllDigits(s) then Some(DigitsValue(s))
    else None
  }

  datatype NumberFormatError = NumberFormatError(input: string)

  /** `Long.parseLong(s)`: fails on malformed text and on values outside the
      `long` range. */
  function ParseLong(s: string): (r: Result<Int64, NumberFormatError>)
    ensures r.Success? <==> NumeralValue(s).Some? && -TwoTo63 <= NumeralValue(s).value < TwoTo63
    ensures r.Success? ==> r.value == NumeralValue(s).value
    ensures r.Failure? ==> r.error == NumberFormatError(s)
  {
    match NumeralValue(s)
    case Some(v) =>
      if -TwoTo63 <= v < TwoTo63 then Success(v) else Failure(NumberFormatError(s))
    case None => Failure(NumberFormatError(s))
  }

  /** Formatting then reading back the numeral recovers every integer. */
  lemma FormatRoundTrip(n: int)
    ensures NumeralValue(Format(n)) == Some(n)
  {
    if n < 0 {
      var digits := NatDigits(-n);
      assert Format(n)[1..] == digits;
    }
  }

  /** ... and in particular `Long.parseLong(Long.toString(n)) == n`. */
  lemma ParseLongFormat(n: Int64)
    ensures ParseLong(Format(n)) == Success(n)
  {
    FormatRoundTrip(n);
  }

  lemma FormatInjective(a: int, b: int)
    requires Format(a) == Format(b)
    ensures a == b
  {
    FormatRoundTrip(a);
    FormatRoundTrip(b);
  }

  /** A digit run's value ignores leading zeros, so `parseLong` is not
      injective: "007" and "7" both read as 7. */
  lemma {:induction false} LeadingZerosIgnored(s: string)
    requires AllDigits(s)
    ensures AllDigits("0" + s) && DigitsValue("0" + s) == DigitsValue(s)
  {
    var z := "0" + s;
    assert AllDigits(z) by {
      forall i | 0 <= i < |z| ensures IsDigit(z[i]) {
        if i > 0 { assert z[i] == s[i - 1]; }
      }
    }
    if |s| > 0 {
      var init := s[..|s| - 1];
      LeadingZerosIgnored(init);
      assert z[..|z| - 1] == "0" + init;
    }
  }

  lemma ParseLongNotInjective()
    ensures ParseLong("007") == ParseLong("7") == Success(7)
  {
    assert DigitsValue("7") == 7 by {
      assert "7"[..0] == "";
    }
    LeadingZerosIgnored("7");
    assert "0" + "7" == "07";
    LeadingZerosIgnored("07");
    assert "0" + "07" == "007";
  }
}
