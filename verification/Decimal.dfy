/** Decimal printing of naturals, as `{}`, `{:02}` and the fraction digits of `{:.6}` do it,
    with the parsers that undo it. */
module Decimal {

  predicate IsDigit(c: char) {
    '0' <= c <= '9'
  }

  function Digit(d: nat): (c: char)
    requires d < 10
  {
    '0' + d as char
  }

  function Value(c: char): (d: nat)
    requires IsDigit(c)
    ensures d < 10 && Digit(d) == c
  {
    (c - '0') as nat
  }

  predicate AllDigits(s: string) {
    forall i :: 0 <= i < |s| ==> IsDigit(s[i])
  }

  /** `{}` on an unsigned integer. */
  function Dec(n: nat): (s: string)
    ensures |s| > 0 && AllDigits(s)
  {
    if n < 10 then [Digit(n)] else Dec(n / 10) + [Digit(n % 10)]
  }

  /** Exactly `w` digits, padded with zeros on the left (`{:02}` for values below 100). */
  function Fixed(n: nat, w: nat): (s: string)
    ensures |s| == w && AllDigits(s)
  {
    if w == 0 then "" else Fixed(n / 10, w - 1) + [Digit(n % 10)]
  }

  function Parse(s: string): nat
    requires AllDigits(s)
  {
    if s == "" then 0 else 10 * Parse(s[..|s| - 1]) + Value(s[|s| - 1])
  }

  function Pow10(w: nat): (p: nat)
    ensures p > 0
  {
    if w == 0 then 1 else 10 * Pow10(w - 1)
  }

  lemma {:induction false} ParseDec(n: nat)
    ensures Parse(Dec(n)) == n
  {
    if n < 10 {
      assert Dec(n)[..0] == "";
    } else {
      assert Dec(n)[..|Dec(n)| - 1] == Dec(n / 10);
      ParseDec(n / 10);
    }
  }

  lemma {:induction false} ParseFixed(n: nat, w: nat)
    requires n < Pow10(w)
    ensures Parse(Fixed(n, w)) == n
  {
    if w > 0 {
      assert Fixed(n, w)[..w - 1] == Fixed(n / 10, w - 1);
      ParseFixed(n / 10, w - 1);
    }
  }

  /** No leading zero. */
  lemma {:induction false} DecIsCanonical(n: nat)
    ensures Dec(n)[0] == '0' ==> n == 0 && Dec(n) == "0"
  {
    if n >= 10 {
      DecIsCanonical(n / 10);
    }
  }

  lemma DecInjective(a: nat, b: nat)
    requires Dec(a) == Dec(b)
    ensures a == b
  {
    ParseDec(a);
    ParseDec(b);
  }
}
