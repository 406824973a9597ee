/** Decimal text of integers, and reading it back: the text of a natural number is its
    digits without leading zeros, a negative one has a sign before it, and a text of digits
    alone is read as the number it denotes, so writing and reading are inverse and two
    integers never share a text. */
module Decimal {
  const DIGITS: seq<char> := ['0', '1', '2', '3', '4', '5', '6', '7', '8', '9']

  predicate IsDigit(c: char) { '0' <= c <= '9' }

  predicate AllDigits(s: string) { forall i | 0 <= i < |s| :: IsDigit(s[i]) }

  function NatText(n: nat): (s: string)
    ensures s != [] && AllDigits(s)
    decreases n
  {
    if n < 10 then [DIGITS[n]] else NatText(n / 10) + [DIGITS[n % 10]]
  }

  function DigitValue(c: char): nat
    requires IsDigit(c)
  {
    (c as int) - ('0' as int)
  }

  function NatValue(s: string): nat
    requires AllDigits(s)
  {
    if s == [] then 0 else NatValue(s[..|s| - 1]) * 10 + DigitValue(s[|s| - 1])
  }

  lemma OneMoreDigit(s: string, d: nat)
    requires AllDigits(s) && d < 10
    ensures AllDigits(s + [DIGITS[d]]) && NatValue(s + [DIGITS[d]]) == NatValue(s) * 10 + d
  {
    assert (s + [DIGITS[d]])[..|s|] == s;
  }

  lemma {:induction false} TextReadsBack(n: nat)
    ensures NatValue(NatText(n)) == n
    decreases n
  {
    if n < 10 {
      OneMoreDigit("", n);
      assert [DIGITS[n]] == "" + [DIGITS[n]];
    } else {
      TextReadsBack(n / 10);
      OneMoreDigit(NatText(n / 10), n % 10);
    }
  }

  // As the language's own text of an integer.
  function IntText(n: int): string {
    if n < 0 then "-" + NatText(-n) else NatText(n)
  }

  // The digits of a text, without its sign.
  function Magnitude(s: string): string
    requires s != []
  {
    if s[0] == '-' then s[1..] else s
  }

  lemma SignAndMagnitude(n: int)
    ensures IntText(n) != []
    ensures IntText(n)[0] == '-' <==> n < 0
    ensures Magnitude(IntText(n)) == NatText(if n < 0 then -n else n)
  {
    assert IsDigit(NatText(if n < 0 then -n else n)[0]);
  }

  lemma IntTextIsInjective(a: int, b: int)
    requires IntText(a) == IntText(b)
    ensures a == b
  {
    SignAndMagnitude(a);
    SignAndMagnitude(b);
    TextReadsBack(if a < 0 then -a else a);
    TextReadsBack(if b < 0 then -b else b);
  }

  // The last `width` digits, zeros included.
  function LastDigits(n: nat, width: nat): string {
    if width == 0 then "" else LastDigits(n / 10, width - 1) + [DIGITS[n % 10]]
  }

  // Millionths as a number with six decimals.
  function Millionths(n: int): string {
    var m := if n < 0 then -n else n;
    (if n < 0 then "-" else "") + NatText(m / 1_000_000) + "." + LastDigits(m % 1_000_000, 6)
  }

  lemma IntTextHasNoSeparator(n: int)
    ensures '|' !in IntText(n)
  {
  }

  function PowerOfTen(n: nat): nat { if n == 0 then 1 else 10 * PowerOfTen(n - 1) }

  lemma {:induction false} LastDigitsReadBack(n: nat, width: nat)
    requires n < PowerOfTen(width)
    ensures |LastDigits(n, width)| == width && AllDigits(LastDigits(n, width))
    ensures NatValue(LastDigits(n, width)) == n
    decreases width
  {
    if width > 0 {
      LastDigitsReadBack(n / 10, width - 1);
      OneMoreDigit(LastDigits(n / 10, width - 1), n % 10);
    }
  }

  /** The text of a number of millionths: its whole part, a point and six digits, which
      together read back as the number. */
  lemma MillionthsReadBack(n: nat) returns (whole: string, part: string)
    ensures Millionths(n) == whole + "." + part && |part| == 6 && whole != [] && AllDigits(whole) && AllDigits(part)
    ensures NatValue(whole) * 1_000_000 + NatValue(part) == n
  {
    whole, part := NatText(n / 1_000_000), LastDigits(n % 1_000_000, 6);
    TextReadsBack(n / 1_000_000);
    assert PowerOfTen(6) == 1_000_000 by {
      assert PowerOfTen(2) == 100;
      assert PowerOfTen(4) == 10_000;
    }
    LastDigitsReadBack(n % 1_000_000, 6);
  }

  lemma TwoZeros(width: nat)
    ensures LastDigits(0, width + 2) == LastDigits(0, width) + "00"
  {
  }

  lemma SixZeros()
    ensures LastDigits(0, 6) == "000000"
  {
    hide LastDigits;
    NoDigits();
    TwoZeros(0);
    TwoZeros(2);
    TwoZeros(4);
  }

  lemma NoDigits()
    ensures LastDigits(0, 0) == ""
  {
  }
}
