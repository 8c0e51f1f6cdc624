/**
 * Integer division as the source language does it.
 *
 * Python's `//` rounds the quotient towards negative infinity, so its `%`
 * takes the sign of the divisor. Dafny's `/` and `%` are Euclidean: the
 * remainder is never negative. The two disagree whenever the divisor is
 * negative and does not divide the dividend.
 */
module PyArith {

  /** Python's `(a // b, a % b)`; `b == 0` raises ZeroDivisionError there.
      Only the remainder is used by the check; the quotient is kept so that
      the division equation, and with it the remainder, is pinned down
      (see FloorDivModUnique). */
  function FloorDivMod(a: int, b: int): (qr: (int, int))
    requires b != 0
    ensures a == qr.0 * b + qr.1
    ensures if b > 0 then 0 <= qr.1 < b else b < qr.1 <= 0
  {
    var q, r := a / b, a % b;
    if r == 0 || b > 0 then (q, r) else (q - 1, r + b)
  }

  /** Python's `a % b`: Dafny's remainder, shifted by one divisor when that
      is needed to give it the sign of `b`. */
  function PyMod(a: int, b: int): (r: int)
    requires b != 0
    ensures r == a % b || r == a % b + b
    ensures if b > 0 then 0 <= r < b else b < r <= 0
  {
    FloorDivMod(a, b).1
  }

  /** Quotient and remainder are pinned down by the division equation and
      the sign rule alone, so FloorDivMod is the only such pair. */
  lemma FloorDivModUnique(a: int, b: int, q: int, r: int)
    requires b != 0
    requires a == q * b + r
    requires if b > 0 then 0 <= r < b else b < r <= 0
    ensures (q, r) == FloorDivMod(a, b)
  {
    var (q', r') := FloorDivMod(a, b);
    assert (q - q') * b == r' - r;
    if q != q' {
      if q - q' > 0 {
        MulAtLeastDivisor(q - q', b);
      } else {
        MulAtLeastDivisor(q' - q, b);
      }
      assert false;
    }
  }

  /** A non-zero multiple of `b` is at least `|b|` away from zero. */
  lemma MulAtLeastDivisor(k: int, b: int)
    requires k >= 1 && b != 0
    ensures if b > 0 then k * b >= b else k * b <= b
  {
  }

  /** Python's and Dafny's remainders agree on whether they are zero. */
  lemma PyModZeroIff(a: int, b: int)
    requires b != 0
    ensures PyMod(a, b) == 0 <==> a % b == 0
  {
  }

  // Worked example: it checks one input and is not used by any proof.

  /** The two remainders really differ for a negative divisor:
      Python gives `3 % -2 == -1`, Dafny gives `1`. */
  lemma NegativeDivisorExample()
    ensures PyMod(3, -2) == -1 && 3 % -2 == 1
  {
  }
}
