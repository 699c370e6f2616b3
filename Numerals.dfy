/** Decimal numerals: powers of ten, the digits of a natural number, and
    the text `String.valueOf(int)` produces. */
module Numerals {

  function Pow10(k: nat): (r: nat)
    ensures r >= 1
  {
    if k == 0 then 1 else 10 * Pow10(k - 1)
  }

  predicate IsDigit(c: char) {
    '0' <= c <= '9'
  }

  predicate AllDigits(s: string) {
    forall i :: 0 <= i < |s| ==> IsDigit(s[i])
  }

  function DigitValue(c: char): (k: nat)
    requires IsDigit(c)
    ensures k < 10
  {
    c as int - '0' as int
  }

  /** The character of a single decimal digit; reading it back gives the digit. */
  function DigitChar(k: nat): (c: char)
    requires k < 10
    ensures IsDigit(c) && DigitValue(c) == k
  {
    ('0' as int + k) as char
  }

  /** The decimal numeral of `n`, most significant digit first, with no
      leading zero (except for `n == 0` itself, written "0"). */
  function Digits(n: nat): (s: string)
    ensures |s| >= 1 && AllDigits(s)
    ensures s[0] == '0' ==> n == 0
  {
    if n < 10 then [DigitChar(n)] else Digits(n / 10) + [DigitChar(n % 10)]
  }

  /** One unfolding of `Digits`, for numerals of concrete numbers. */
  lemma DigitsStep(n: nat)
    requires n >= 10
    ensures Digits(n) == Digits(n / 10) + [DigitChar(n % 10)]
  {
  }

  /** The number a string of digits denotes (the reading direction of `Digits`). */
  function DigitsValue(s: string): nat
    requires AllDigits(s)
  {
    if s == [] then 0 else 10 * DigitsValue(s[..|s| - 1]) + DigitValue(s[|s| - 1])
  }

  lemma {:induction false} DigitsRoundTrip(n: nat)
    ensures DigitsValue(Digits(n)) == n
  {
    if n >= 10 {
      var s := Digits(n);
      assert s[..|s| - 1] == Digits(n / 10);
      DigitsRoundTrip(n / 10);
    }
  }

  /** A numeral has at most `k + 1` digits exactly when it is below `10^(k+1)`. */
  lemma {:induction false} DigitsLength(n: nat, k: nat)
    ensures |Digits(n)| <= k + 1 <==> n < Pow10(k + 1)
  {
    if n >= 10 {
      if k == 0 {
        assert Pow10(1) == 10;
      } else {
        DigitsLength(n / 10, k - 1);
        assert Pow10(k + 1) == 10 * Pow10(k);
      }
    } else {
      PowerAtLeastTen(k);
    }
  }

  lemma {:induction false} PowerAtLeastTen(k: nat)
    ensures Pow10(k + 1) >= 10
  {
    if k > 0 {
      PowerAtLeastTen(k - 1);
    }
  }

  /** The shape of `String.valueOf(int)`: an optional '-' and then at least one digit. */
  predicate IntegerText(s: string) {
    if |s| > 0 && s[0] == '-' then |s| >= 2 && AllDigits(s[1..]) else |s| >= 1 && AllDigits(s)
  }

  /** `String.valueOf(int)`: a '-' for a negative value, then the digits of the magnitude. */
  function ValueOf(n: int): (s: string)
    ensures IntegerText(s)
    ensures (s[0] == '-') == (n < 0)
  {
    if n < 0 then "-" + Digits(-n) else Digits(n)
  }

  /** `Integer.parseInt` on the shapes `ValueOf` produces. */
  function ParseInteger(s: string): int
    requires IntegerText(s)
  {
    if s[0] == '-' then -(DigitsValue(s[1..]) as int) else DigitsValue(s)
  }

  lemma ValueOfRoundTrip(n: int)
    ensures ParseInteger(ValueOf(n)) == n
  {
    if n < 0 {
      assert ValueOf(n)[1..] == Digits(-n);
      DigitsRoundTrip(-n);
    } else {
      DigitsRoundTrip(n);
    }
  }
}
