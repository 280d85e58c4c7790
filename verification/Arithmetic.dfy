/** Division and remainder by a variable. */
module Arithmetic {
  lemma DivisionBounds(a: int, b: int)
    requires b > 0
    ensures (a / b) * b <= a < (a / b) * b + b
  {
    assert a == (a / b) * b + a % b;
  }

  lemma AtLeastOnce(x: int, b: int)
    requires x >= 1 && b > 0
    ensures x * b >= b
  {}

  lemma LessThanOnce(x: int, b: int)
    requires b > 0 && -b < x * b < b
    ensures x == 0
  {
    if x >= 1 {
      AtLeastOnce(x, b);
    } else if x <= -1 {
      AtLeastOnce(-x, b);
    }
  }

  lemma DivisionUnique(a: int, b: int, q: int)
    requires b > 0 && q * b <= a < q * b + b
    ensures a / b == q
  {
    DivisionBounds(a, b);
    var x := a / b;
    assert (x - q) * b == x * b - q * b;
    LessThanOnce(x - q, b);
  }

  lemma MultipleHasNoRemainder(k: int, unit: int)
    requires unit > 0
    ensures (k * unit) % unit == 0
  {
    DivisionUnique(k * unit, unit, k);
    assert k * unit == ((k * unit) / unit) * unit + (k * unit) % unit;
  }

  /** The remainder of a number written as a multiple and a rest. */
  lemma RemainderIs(k: int, n: int, q: int, r: int)
    requires n > 0 && 0 <= r < n && k == q * n + r
    ensures k % n == r
  {
    DivisionUnique(k, n, q);
  }

  lemma NextMultiple(q: int, n: int)
    ensures (q + 1) * n == q * n + n && (q - 1) * n == q * n - n
  {}
}
