/** Facts about division and multiplication that the solver needs spelled out. */
module Arithmetic {

  lemma DivideIdentity(num: nat, den: nat)
    requires den > 0
    ensures num == num / den * den + num % den && 0 <= num % den < den
  {
  }

  lemma ProductNotNegative(a: int, b: int)
    requires a >= 0 && b >= 0
    ensures a * b >= 0
  {
  }

  /** Quotient and remainder are the only pair that fits. */
  lemma DivideUnique(num: nat, den: nat, q: nat, r: nat)
    requires den > 0 && r < den && num == q * den + r
    ensures num / den == q && num % den == r
  {
    DivideIdentity(num, den);
    var d := num / den - q;
    assert d * den == num / den * den - q * den == r - num % den;
    SmallMultiple(d, den);
  }

  /** A multiple of `den` smaller than `den` in size is zero. */
  lemma SmallMultiple(d: int, den: nat)
    requires d * den < den && -d * den < den
    ensures d == 0
  {
    if d > 0 {
      ProductNotNegative(d - 1, den);
    } else if d < 0 {
      ProductNotNegative(-d - 1, den);
    }
  }

  lemma QuotientIsMonotone(x: nat, y: nat, den: nat)
    requires den > 0 && x <= y
    ensures x / den <= y / den
  {
    DivideIdentity(x, den);
    DivideIdentity(y, den);
    if x / den > y / den {
      ProductNotNegative(x / den - y / den - 1, den);
    }
  }

  lemma OneMore(k: nat, den: nat)
    ensures (k + 1) * den == k * den + den
  {
  }

  lemma QuotientBounds(k: nat, num: nat, den: nat)
    requires den > 0 && k * den <= num
    ensures k <= num / den
  {
    DivideIdentity(num, den);
    if k > num / den {
      ProductNotNegative(k - num / den - 1, den);
    }
  }

  lemma CancelFactor(x: real, y: real, d: real)
    requires d > 0.0 && x * d == y * d
    ensures x == y
  {
    assert (x - y) * d == 0.0;
  }

  lemma Difference(f: real, n: real, d: real)
    ensures (f - n) * d == f * d - n * d
  {
  }

  lemma KeepsOrder(x: real, y: real, d: real)
    requires d > 0.0 && x >= y
    ensures x * d >= y * d
  {
    assert (x - y) * d >= 0.0;
  }
}
