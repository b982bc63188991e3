/** Decimal digit strings: rendering a natural number, zero-padding it to a
    width (as dates are printed) and reading it back. */
module Decimal {

  predicate IsDigit(c: char)
  {
    '0' <= c <= '9'
  }

  predicate AllDigits(s: string)
  {
    forall i :: 0 <= i < |s| ==> IsDigit(s[i])
  }

  function DigitValue(c: char): nat
  {
    if IsDigit(c) then c as int - '0' as int else 0
  }

  function DigitChar(n: nat): (c: char)
    requires n < 10
    ensures IsDigit(c) && DigitValue(c) == n
  {
    (n + '0' as int) as char
  }

  /** The decimal digits of `n`, without leading zeros. */
  function Digits(n: nat): (s: string)
    ensures 1 <= |s|
    ensures n < 10 ==> |s| == 1
    ensures 10 <= n < 100 ==> |s| == 2
    ensures n < 10000 ==> |s| <= 4
  {
    if n < 10 then [DigitChar(n)] else Digits(n / 10) + [DigitChar(n % 10)]
  }

  /** `n` in decimal, left-padded with zeros to at least `width` characters. */
  function Padded(n: nat, width: nat): (s: string)
    ensures width <= |s|
    ensures |Digits(n)| <= width ==> |s| == width
    ensures n < 100 && width == 2 ==> |s| == 2
    ensures n < 10000 && width == 4 ==> |s| == 4
    decreases width
  {
    if width <= |Digits(n)| then Digits(n) else ['0'] + Padded(n, width - 1)
  }

  lemma {:induction false} DigitsAreDigits(n: nat)
    ensures AllDigits(Digits(n))
  {
    if n >= 10 {
      DigitsAreDigits(n / 10);
    }
  }

  /** A padded rendering consists of decimal digits only. */
  lemma {:induction false} PaddedAreDigits(n: nat, width: nat)
    ensures AllDigits(Padded(n, width))
    decreases width
  {
    if width <= |Digits(n)| {
      DigitsAreDigits(n);
    } else {
      PaddedAreDigits(n, width - 1);
    }
  }

  /** The number a digit string denotes (leading zeros allowed). */
  function Value(s: string): nat
  {
    if s == [] then 0 else Value(s[..|s| - 1]) * 10 + DigitValue(s[|s| - 1])
  }

  lemma {:induction false} ValueOfDigits(n: nat)
    ensures Value(Digits(n)) == n
  {
    if n >= 10 {
      var s := Digits(n);
      assert s[..|s| - 1] == Digits(n / 10);
      ValueOfDigits(n / 10);
    }
  }

  lemma {:induction false} ValueIgnoresLeadingZero(s: string)
    ensures Value(['0'] + s) == Value(s)
  {
    if s != [] {
      assert (['0'] + s)[..|s|] == ['0'] + s[..|s| - 1];
      ValueIgnoresLeadingZero(s[..|s| - 1]);
    }
  }

  /** Reading a padded rendering back gives the number: padding loses nothing. */
  lemma {:induction false} ValueOfPadded(n: nat, width: nat)
    ensures Value(Padded(n, width)) == n
    decreases width
  {
    if width <= |Digits(n)| {
      ValueOfDigits(n);
    } else {
      ValueIgnoresLeadingZero(Padded(n, width - 1));
      ValueOfPadded(n, width - 1);
    }
  }
}
