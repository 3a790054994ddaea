/** Decimal rendering of Kotlin `Int` values, as used by string templates
    such as `"$code"`, together with a reader that inverts it. */
module Decimal {
  import opened Wrappers

  predicate IsDigit(c: char) {
    '0' <= c <= '9'
  }

  predicate AllDigits(s: string) {
    forall i :: 0 <= i < |s| ==> IsDigit(s[i])
  }

  function DigitValue(c: char): nat
    requires IsDigit(c)
  {
    c as int - '0' as int
  }

  function DigitChar(d: nat): (c: char)
    requires d < 10
    ensures IsDigit(c) && DigitValue(c) == d
  {
    ('0' as int + d) as char
  }

  /** The digits of `n`, most significant first, without leading zeros. */
  function NatToString(n: nat): (s: string)
    ensures |s| > 0 && AllDigits(s)
    ensures s[0] == '0' ==> n == 0
    ensures |s| > 1 ==> s[0] != '0'
  {
    if n < 10 then [DigitChar(n)] else NatToString(n / 10) + [DigitChar(n % 10)]
  }

  /** `Int.toString()`: an optional minus sign followed by the digits of the magnitude. */
  function IntToString(n: int): (s: string)
    ensures |s| > 0
    ensures s[0] == '-' <==> n < 0
    ensures n >= 0 ==> IsDigit(s[0])
    ensures forall i :: 0 < i < |s| ==> IsDigit(s[i])
    ensures |s| > 1 ==> s[0] != '0'
    ensures n < 0 ==> |s| > 1 && s[1] != '0'
  {
    if n < 0 then "-" + NatToString(-n) else NatToString(n)
  }

  /** The number a string of digits denotes. */
  function DigitsValue(s: string): nat
    requires AllDigits(s)
  {
    if s == [] then 0 else 10 * DigitsValue(s[..|s| - 1]) + DigitValue(s[|s| - 1])
  }

  /** Digits without a superfluous leading zero: `0`, or digits that start with 1 to 9. */
  predicate IsNumeral(s: string) {
    |s| > 0 && AllDigits(s) && (|s| > 1 ==> s[0] != '0')
  }

  /** Reads the text `Int.toString()` writes back into the number: a numeral,
      or a minus sign and a numeral other than `0`. Any other text is refused. */
  function ParseInt(s: string): Option<int> {
    if |s| > 1 && s[0] == '-' && IsNumeral(s[1..]) && s[1] != '0' then
      var magnitude: int := DigitsValue(s[1..]);
      Some(-magnitude)
    else if IsNumeral(s) then Some(DigitsValue(s))
    else None
  }

  lemma {:induction false} NatToStringRoundTrip(n: nat)
    ensures DigitsValue(NatToString(n)) == n
  {
    if n >= 10 {
      var s := NatToString(n / 10);
      NatToStringRoundTrip(n / 10);
      assert (s + [DigitChar(n % 10)])[..|s|] == s;
    }
  }

  /** Reading the rendering of any integer gives the integer back. */
  lemma IntToStringRoundTrip(n: int)
    ensures ParseInt(IntToString(n)) == Some(n)
  {
    if n < 0 {
      NatToStringRoundTrip(-n);
      assert IntToString(n)[1..] == NatToString(-n);
    } else {
      NatToStringRoundTrip(n);
    }
  }

  lemma {:induction false} LeadingDigitPositive(s: string)
    requires |s| > 0 && AllDigits(s) && s[0] != '0'
    ensures DigitsValue(s) > 0
  {
    if |s| > 1 {
      var init := s[..|s| - 1];
      assert init[0] == s[0];
      LeadingDigitPositive(init);
    }
  }

  /** Every numeral is the rendering of the number it denotes. */
  lemma {:induction false} NumeralRoundTrip(s: string)
    requires IsNumeral(s)
    ensures NatToString(DigitsValue(s)) == s
  {
    var last := s[|s| - 1];
    assert DigitChar(DigitValue(last)) == last;
    if |s| == 1 {
      assert s == [last];
    } else {
      var init := s[..|s| - 1];
      assert init[0] == s[0];
      LeadingDigitPositive(init);
      NumeralRoundTrip(init);
      var v := DigitsValue(s);
      assert v / 10 == DigitsValue(init) && v % 10 == DigitValue(last);
      assert s == init + [last];
    }
  }

  /** The reader accepts only what the rendering writes: whatever it reads as
      `n` is exactly the text of `n`. */
  lemma ParseIntOnlyRenderings(s: string, n: int)
    requires ParseInt(s) == Some(n)
    ensures s == IntToString(n)
  {
    if |s| > 1 && s[0] == '-' && IsNumeral(s[1..]) && s[1] != '0' {
      NumeralRoundTrip(s[1..]);
      LeadingDigitPositive(s[1..]);
      assert s == "-" + s[1..];
    } else {
      NumeralRoundTrip(s);
    }
  }

  /** Distinct integers render as distinct strings. */
  lemma IntToStringInjective(m: int, n: int)
    requires IntToString(m) == IntToString(n)
    ensures m == n
  {
    IntToStringRoundTrip(m);
    IntToStringRoundTrip(n);
  }
}
