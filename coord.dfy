/**
 * The coordinate type of a vector, instantiated as the mathematical integers.
 *
 * The source is generic over any signed, copyable numeric type; its tests use
 * `i32`. Every operator a vector applies to its coordinates is Dafny's own on
 * `int` except division: Rust's integer `/` rounds the quotient toward zero,
 * while Dafny's `/` on `int` is Euclidean (its remainder is never negative).
 * `TruncDiv` writes Rust's operator out and `IsTruncQuotient` characterises it
 * independently of how it is computed.
 */
module Coord {

  function Abs(a: int): nat
  {
    if a < 0 then -a else a
  }

  /**
   * `q` is the quotient of `a` by `b` rounded toward zero: the remainder
   * `a - q * b` is smaller than the divisor in magnitude and, unless it is
   * zero, has the sign of the dividend.
   */
  predicate IsTruncQuotient(a: int, b: int, q: int)
  {
    var r := a - q * b;
    b != 0 && Abs(r) < Abs(b) && (r == 0 || (r < 0 <==> a < 0))
  }

  /** Rust's integer division `a / b`; a zero divisor panics in Rust, so it is excluded. */
  function TruncDiv(a: int, b: int): (q: int)
    requires b != 0
    ensures IsTruncQuotient(a, b, q)
  {
    var n := Abs(a) / Abs(b);
    SignedQuotient(a, b, n, Abs(a) % Abs(b));
    if (a < 0) == (b < 0) then n else -n
  }

  /**
   * The quotient `n` of the magnitudes, given the sign the operands call for,
   * is the quotient rounded toward zero.
   */
  lemma SignedQuotient(a: int, b: int, n: int, m: int)
    requires b != 0 && Abs(a) == n * Abs(b) + m && 0 <= m < Abs(b)
    ensures IsTruncQuotient(a, b, if (a < 0) == (b < 0) then n else -n)
  {
    var B: int := Abs(b);
    if b < 0 {
      assert n * b == -(n * B) by { assert b == -B; }
    } else {
      assert n * b == n * B;
    }
    var q := if (a < 0) == (b < 0) then n else -n;
    assert q * b == if a < 0 then -(n * B) else n * B;
    assert a - q * b == if a < 0 then -m else m;
  }

  /** A nonzero multiple of `b` is at least as large as `b` in magnitude. */
  lemma MulAbsAtLeast(k: int, b: int)
    requires k != 0
    ensures Abs(k * b) >= Abs(b)
  {
    var K: int, B: int := Abs(k), Abs(b);
    assert K * B == (K - 1) * B + B;
    assert (K - 1) * B >= 0;
    if k < 0 && b < 0 {
      assert k * b == K * B;
    } else if k < 0 {
      assert k * b == -(K * B);
    } else if b < 0 {
      assert k * b == -(K * B);
    } else {
      assert k * b == K * B;
    }
  }

  /** There is only one quotient rounded toward zero, and `TruncDiv` computes it. */
  lemma TruncQuotientUnique(a: int, b: int, q: int)
    requires IsTruncQuotient(a, b, q)
    ensures q == TruncDiv(a, b)
  {
    QuotientsAgree(a, b, q, TruncDiv(a, b));
  }

  /** Two quotients of `a` by `b` rounded toward zero are the same. */
  lemma QuotientsAgree(a: int, b: int, q1: int, q2: int)
    requires IsTruncQuotient(a, b, q1) && IsTruncQuotient(a, b, q2)
    ensures q1 == q2
  {
    if q1 != q2 {
      var B: int := Abs(b);
      var r1, r2 := a - q1 * b, a - q2 * b;
      // Both remainders lie on the side of zero the dividend is on.
      if a < 0 {
        assert -B < r1 <= 0 && -B < r2 <= 0;
      } else {
        assert 0 <= r1 < B && 0 <= r2 < B;
      }
      assert r2 - r1 == (q1 - q2) * b;
      MulAbsAtLeast(q1 - q2, b);
      assert false;
    }
  }

  /** Dividing an exact multiple gives back the factor: no rounding happens. */
  lemma TruncDivOfMultiple(a: int, b: int)
    requires b != 0
    ensures TruncDiv(a * b, b) == a
  {
    assert a * b - a * b == 0;
    TruncQuotientUnique(a * b, b, a);
  }

  /**
   * Rounding toward zero is symmetric about zero: negating the dividend
   * negates the quotient (Euclidean division does not have this property).
   */
  lemma TruncDivOfNegation(a: int, b: int)
    requires b != 0
    ensures TruncDiv(-a, b) == -TruncDiv(a, b)
  {
    var q := TruncDiv(a, b);
    assert -a - (-q) * b == -(a - q * b);
    TruncQuotientUnique(-a, b, -q);
  }

  /** For a nonnegative dividend and a positive divisor both divisions agree. */
  lemma TruncDivAgreesWithEuclidean(a: int, b: int)
    requires a >= 0 && b > 0
    ensures TruncDiv(a, b) == a / b
  {
  }

  /** The two divisions differ on a negative dividend that the divisor does not divide. */
  lemma TruncDivExamples()
    ensures TruncDiv(42, 2) == 21 && TruncDiv(41, 2) == 20 && TruncDiv(24, 2) == 12
    ensures TruncDiv(-41, 2) == -20 && -41 / 2 == -21
    ensures TruncDiv(41, -2) == -20 && 41 / -2 == -20
  {
  }
}
