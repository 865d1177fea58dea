/** Facts about division with a variable divisor that the other modules share. */
module Arith {

  /** A nonzero multiple of n is at least n away from zero. */
  lemma MultipleBound(n: int, d: int)
    requires n > 0
    ensures d >= 1 ==> n * d >= n
    ensures d <= -1 ==> n * d <= -n
    ensures d == 0 ==> n * d == 0
  {
  }

  /** Product of naturals, as a natural. */
  function Mul(a: nat, b: nat): nat {
    a * b
  }

  /** Division of naturals, as a natural. */
  function Quotient(x: nat, n: nat): nat
    requires n > 0
  {
    x / n
  }

  /** Remainder of naturals. */
  function Rest(x: nat, n: nat): (r: nat)
    requires n > 0
    ensures r < n
  {
    x % n
  }

  lemma MulMonotone(a: nat, b: nat, n: nat)
    requires a <= b
    ensures a * n <= b * n
  {
  }

  lemma Remainder(x: nat, n: nat)
    requires n > 0
    ensures x - x / n * n == x % n
  {
  }

  /** Quotient and remainder are unique. */
  lemma DivUnique(n: nat, q: int, r: nat)
    requires r < n
    ensures (n * q + r) / n == q && (n * q + r) % n == r
  {
    var x := n * q + r;
    var d := q - x / n;
    assert x == n * (x / n) + x % n;
    assert n * d == n * q - n * (x / n);
    MultipleBound(n, d);
  }

  /** Distinct multiples of n are at least n apart. */
  lemma MultiplesApart(a: nat, b: nat, n: nat)
    requires n > 0 && a % n == 0 && b % n == 0 && a < b
    ensures a + n <= b
  {
    var p, q := a / n, b / n;
    assert a == n * p && b == n * q;
    var d := q - p;
    assert n * d == n * q - n * p;
    MultipleBound(n, d);
  }

  /** Rounding down to a multiple of n stays within a size that is a multiple of n. */
  lemma RoundDown(x: nat, n: nat, size: nat)
    requires n > 0 && size % n == 0 && x < size
    ensures 0 <= x - x % n && (x - x % n) % n == 0 && x - x % n + n <= size
  {
    var p := x / n;
    assert x - x % n == n * p + 0;
    DivUnique(n, p, 0);
    MultiplesApart(x - x % n, size, n);
  }

  /** Staying below the next multiple keeps the quotient. */
  lemma QuotientStep(x: nat, n: nat, i: nat)
    requires n > 0 && Rest(x, n) + i < n
    ensures Quotient(x + i, n) == Quotient(x, n) && Rest(x + i, n) == Rest(x, n) + i
  {
    assert x + i == n * (x / n) + (x % n + i);
    DivUnique(n, x / n, x % n + i);
  }
}
