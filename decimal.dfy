/**
 Decimal rendering of non-negative integers, the part of Go's
 `fmt.Sprintf("%d", n)` that the string generator relies on: the digits of
 `n` in base ten, most significant first, with no sign and no leading zero.
 `Parse` is its inverse, which makes the rendering injective.
 */
module Decimal {

  predicate IsDigit(c: char) {
    '0' <= c <= '9'
  }

  predicate AllDigits(s: string) {
    forall i :: 0 <= i < |s| ==> IsDigit(s[i])
  }

  /** The character that shows the digit `d`. */
  function DigitChar(d: nat): (c: char)
    requires d < 10
    ensures IsDigit(c)
  {
    ('0' as int + d) as char
  }

  /** The digit that the character `c` shows. */
  function DigitValue(c: char): (d: nat)
    requires IsDigit(c)
    ensures d < 10
  {
    c as int - '0' as int
  }

  /** The decimal representation of `n`, as `%d` prints a non-negative int. */
  function Render(n: nat): (s: string)
    ensures |s| >= 1 && AllDigits(s)
    ensures |s| > 1 ==> s[0] != '0'
  {
    if n < 10 then [DigitChar(n)] else Render(n / 10) + [DigitChar(n % 10)]
  }

  /** Reads a string of decimal digits back as a number. */
  function Parse(s: string): nat
    requires AllDigits(s)
  {
    if s == [] then 0 else 10 * Parse(s[..|s| - 1]) + DigitValue(s[|s| - 1])
  }

  /** Parsing a rendering gives back the number that was rendered. */
  lemma {:induction false} ParseRender(n: nat)
    ensures Parse(Render(n)) == n
  {
    var s := Render(n);
    if n >= 10 {
      assert s[..|s| - 1] == Render(n / 10);
      ParseRender(n / 10);
    }
  }

  /** Two numbers render alike exactly when they are equal. */
  lemma RenderInjective(a: nat, b: nat)
    ensures Render(a) == Render(b) <==> a == b
  {
    ParseRender(a);
    ParseRender(b);
  }

  /** Every number from 1000 to 9999 renders as exactly four digits. */
  lemma {:induction false} RenderFourDigits(n: nat)
    requires 1000 <= n < 10000
    ensures |Render(n)| == 4
  {
    assert Render(n / 1000) == [DigitChar(n / 1000)];
    assert |Render(n / 100)| == 2;
    assert |Render(n / 10)| == 3;
  }
}
