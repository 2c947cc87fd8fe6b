/**
 * C# integer division and remainder.
 *
 * C#'s `/` truncates toward zero and its `%` takes the sign of the dividend,
 * whereas Dafny's `/` and `%` on `int` are Euclidean. Every quotient and
 * remainder of the editor's source is written with these two functions.
 */
module Integers {

  /** Absolute value. */
  function Abs(a: int): (r: nat)
    ensures r == a || r == -a
  {
    if a < 0 then -a else a
  }

  /** C# `a / b`: the quotient truncated toward zero. */
  function TDiv(a: int, b: int): int
    requires b != 0
  {
    if a >= 0 then
      (if b > 0 then a / b else -(a / -b))
    else
      (if b > 0 then -((-a) / b) else (-a) / (-b))
  }

  /** C# `a % b`: the remainder whose sign is that of the dividend. */
  function TMod(a: int, b: int): int
    requires b != 0
  {
    a - b * TDiv(a, b)
  }

  /**
   * Division and remainder recombine into the dividend, the remainder is
   * smaller than the divisor in magnitude, and it is never of the opposite
   * sign to the dividend.
   */
  lemma TDivMod(a: int, b: int)
    requires b != 0
    ensures TDiv(a, b) * b + TMod(a, b) == a
    ensures Abs(TMod(a, b)) < Abs(b)
    ensures a >= 0 ==> TMod(a, b) >= 0
    ensures a <= 0 ==> TMod(a, b) <= 0
  {
    var m: int, n: int := Abs(a), Abs(b);
    assert TMod(m, n) == m % n;
    TModDivisorSign(a, n);
    TDivNegate(m, n);
    if b < 0 {
      assert TMod(a, b) == TMod(a, n);
    }
    if a < 0 {
      assert TMod(a, n) == -TMod(m, n);
    }
  }

  /** The remainder does not depend on the divisor's sign. */
  lemma TModDivisorSign(a: int, n: int)
    requires n > 0
    ensures TMod(a, -n) == TMod(a, n)
  {
    var q := TDiv(a, n);
    assert TDiv(a, -n) == -q;
    assert (-n) * (-q) == n * q;
  }

  /** Truncation is symmetric: negating the dividend negates both results. */
  lemma TDivNegate(a: int, b: int)
    requires b != 0
    ensures TDiv(-a, b) == -TDiv(a, b) && TMod(-a, b) == -TMod(a, b)
  {
  }

  /**
   * Whenever `q * b + r == a` with the remainder bounded by the divisor and
   * signed like the dividend, `q` and `r` are C#'s quotient and remainder.
   */
  lemma TDivUnique(a: int, b: int, q: int, r: int)
    requires b > 0
    requires q * b + r == a
    requires -b < r < b
    requires a > 0 ==> r >= 0
    requires a < 0 ==> r <= 0
    ensures q == TDiv(a, b) && r == TMod(a, b)
  {
    TDivMod(a, b);
    var q', r' := TDiv(a, b), TMod(a, b);
    var d := q - q';
    assert d * b == r' - r by {
      assert q * b - q' * b == d * b;
    }
    if d >= 1 {
      MulMonotone(1, d, b);
    } else if d <= -1 {
      MulMonotone(d, -1, b);
    }
  }

  /** Whenever `q * d + r == n` with `0 <= r < d`, `q` and `r` are the quotient and remainder. */
  lemma DivModUnique(n: nat, d: nat, q: nat, r: nat)
    requires 0 <= r < d && n == q * d + r
    ensures n / d == q && n % d == r
  {
    var q', r' := n / d, n % d;
    if q' < q {
      MulLess(q', q, d);
    } else if q' > q {
      MulLess(q, q', d);
    }
  }

  /** C# division by a positive divisor is monotone in the dividend. */
  lemma TDivMonotone(a: int, b: int, d: int)
    requires a <= b && d > 0
    ensures TDiv(a, d) <= TDiv(b, d)
  {
    if 0 <= a {
      EuclidMonotone(a, b, d);
    } else if b < 0 {
      EuclidMonotone(-b, -a, d);
    } else {
      EuclidMonotone(0, -a, d);
      EuclidMonotone(0, b, d);
    }
  }

  lemma EuclidMonotone(a: int, b: int, d: int)
    requires 0 <= a <= b && d > 0
    ensures 0 <= a / d <= b / d
  {
    var qa, qb := a / d, b / d;
    assert qa * d <= a && b < qb * d + d;
    if qb < qa {
      MulLess(qb, qa, d);
    }
  }

  lemma MulMonotone(a: int, b: int, c: int)
    requires a <= b && c >= 0
    ensures a * c <= b * c
  {
    assert b * c == a * c + (b - a) * c;
  }

  lemma MulLess(a: int, b: int, c: int)
    requires a < b && c >= 0
    ensures a * c + c <= b * c
  {
    assert b * c == a * c + (b - a) * c;
    assert (b - a) * c >= c by {
      assert (b - a) * c == (b - a - 1) * c + c;
    }
  }

  /** Bounds of C#'s `int`. */
  const Int32Min: int := -0x8000_0000
  const Int32Max: int := 0x7FFF_FFFF

  predicate IsInt32(a: int) {
    Int32Min <= a <= Int32Max
  }
}
