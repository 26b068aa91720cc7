/** The extended Euclidean algorithm of the demo (`extended_euclid`), over
    arbitrary-precision integers with Rust's truncating `BigInt` division. */
module Euclid {
  import opened Arith

  /** `a / b` on `BigInt`: the quotient rounded toward zero, so the remainder
      `a - q*b` is smaller than `b` in size and has the sign of `a`. */
  function TruncDiv(a: int, b: int): (q: int)
    requires b != 0
    ensures Abs(a - q * b) < Abs(b)
    ensures a >= 0 ==> a - q * b >= 0
    ensures a <= 0 ==> a - q * b <= 0
    ensures a >= 0 && b > 0 ==> q == a / b
  {
    var q0 := Abs(a) / Abs(b);
    var t := if (a < 0) == (b < 0) then q0 else -q0;
    TruncRemainder(a, b, q0, t);
    t
  }

  lemma TruncRemainder(a: int, b: int, q0: int, q: int)
    requires b != 0 && q0 == Abs(a) / Abs(b)
    requires q == if (a < 0) == (b < 0) then q0 else -q0
    ensures Abs(a - q * b) < Abs(b)
    ensures a >= 0 ==> a - q * b >= 0
    ensures a <= 0 ==> a - q * b <= 0
  {
    var aa, bb := Abs(a), Abs(b);
    var r0 := aa % bb;
    assert aa == bb * q0 + r0;
    assert 0 <= r0 < bb;
    assert q * b == if a < 0 then -(q0 * bb) else q0 * bb by {
      NegMul(q0, b);
      NegMul(q0, bb);
      if b < 0 {
        assert bb == -b;
      } else {
        assert bb == b;
      }
    }
    if a < 0 {
      assert a - q * b == -r0;
    } else {
      assert a - q * b == r0;
    }
  }

  lemma NegMul(x: int, y: int)
    ensures (-x) * y == x * (-y) && x * (-y) == -(x * y)
  {
  }

  /** The greatest common divisor as the remainder sequence the algorithm
      walks: (a, b) -> (b, a - (a/b)*b) until the second component is zero. */
  function Gcd(a: int, b: int): int
    decreases Abs(b)
  {
    if b == 0 then a else Gcd(b, a - TruncDiv(a, b) * b)
  }

  lemma {:induction false} GcdDividesBoth(a: int, b: int)
    ensures Divides(Gcd(a, b), a) && Divides(Gcd(a, b), b)
    decreases Abs(b)
  {
    if b == 0 {
      DividesRefl(a);
    } else {
      var q := TruncDiv(a, b);
      var r := a - q * b;
      GcdDividesBoth(b, r);
      DividesLinear(Gcd(b, r), r, b, 1, q);
      RemainderCombination(a, b, q);
    }
  }

  /** The remainder a - q*b and a as integer combinations of each other. */
  lemma RemainderCombination(a: int, b: int, q: int)
    ensures a - q * b == 1 * a + (-q) * b
    ensures a == 1 * (a - q * b) + q * b
  {
  }

  lemma {:induction false} GcdGreatest(a: int, b: int, d: int)
    requires Divides(d, a) && Divides(d, b)
    ensures Divides(d, Gcd(a, b))
    decreases Abs(b)
  {
    if b != 0 {
      var q := TruncDiv(a, b);
      var r := a - q * b;
      DividesLinear(d, a, b, 1, -q);
      RemainderCombination(a, b, q);
      GcdGreatest(b, r, d);
    }
  }

  lemma {:induction false} GcdNonNegative(a: int, b: int)
    requires a >= 0 && b >= 0
    ensures Gcd(a, b) >= 0
    decreases b
  {
    if b != 0 {
      GcdNonNegative(b, a - TruncDiv(a, b) * b);
    }
  }

  /** Gcd is the greatest common divisor: it divides both arguments, every
      common divisor divides it, and it is non-negative for non-negative
      arguments (so no positive common divisor exceeds a positive Gcd). */
  lemma GcdIsGreatestCommonDivisor(a: int, b: int, d: int)
    ensures Divides(Gcd(a, b), a) && Divides(Gcd(a, b), b)
    ensures Divides(d, a) && Divides(d, b) ==> Divides(d, Gcd(a, b))
    ensures a >= 0 && b >= 0 ==> Gcd(a, b) >= 0
    ensures a >= 0 && b >= 0 && Gcd(a, b) > 0 && Divides(d, a) && Divides(d, b) ==> d <= Gcd(a, b)
  {
    GcdDividesBoth(a, b);
    if Divides(d, a) && Divides(d, b) {
      GcdGreatest(a, b, d);
      if Gcd(a, b) != 0 {
        DividesBound(d, Gcd(a, b));
      }
    }
    if a >= 0 && b >= 0 {
      GcdNonNegative(a, b);
    }
  }

  /** A factor of magnitude at least 2 cannot multiply to 1 or -1. */
  lemma UnitFactor(u: int, v: int)
    requires Abs(u) >= 2
    ensures u * v != 1 && u * v != -1
  {
    if v != 0 {
      MulAbsAtLeast(u, v);
      assert Abs(u * v) == Abs(v * u);
      MulAbsAtLeast(v, u);
      assert Abs(u * v) >= 2 by {
        assert Abs(u * v) == Abs(u) * Abs(v) by {
          if u < 0 && v < 0 { assert u * v == (-u) * (-v); }
          else if u < 0 { assert u * v == -((-u) * v); }
          else if v < 0 { assert u * v == -(u * (-v)); }
        }
        assert Abs(u) * Abs(v) >= Abs(u) * 1;
      }
    }
  }

  /** A step keeps a linear combination of the inputs a linear combination. */
  lemma LinearStep(a: int, b: int, x0: int, y0: int, r0: int, x1: int, y1: int, r1: int, q: int)
    requires a * x0 + b * y0 == r0 && a * x1 + b * y1 == r1
    ensures a * (x0 - q * x1) + b * (y0 - q * y1) == r0 - q * r1
  {
    assert a * (x0 - q * x1) == a * x0 - q * (a * x1);
    assert b * (y0 - q * y1) == b * y0 - q * (b * y1);
  }

  /** A step negates the determinant of the two coefficient pairs. */
  lemma DeterminantStep(x0: int, x1: int, y0: int, y1: int, q: int)
    ensures x1 * (y0 - q * y1) - (x0 - q * x1) * y1 == -(x0 * y1 - x1 * y0)
  {
    assert x1 * (y0 - q * y1) == x1 * y0 - q * (x1 * y1);
    assert (x0 - q * x1) * y1 == x0 * y1 - q * (x1 * y1);
  }

  /** For non-negative remainders, a step keeps |y0|*r1 + |y1|*r0 fixed,
      keeps the coefficients of opposite signs and their magnitudes ordered. */
  lemma MagnitudeStep(y0: int, y1: int, r0: int, r1: int, q: int, a: int)
    requires r0 >= 0 && r1 > 0 && q == r0 / r1
    requires y0 * y1 <= 0 && Abs(y0) * r1 + Abs(y1) * r0 == a
    requires r0 < r1 ==> y0 == 0 && y1 == 1
    requires Abs(y0) <= Abs(y1) || (y0 == 1 && y1 == 0)
    ensures r0 - q * r1 >= 0 && r0 - q * r1 < r1
    ensures y1 * (y0 - q * y1) <= 0
    ensures Abs(y1) * (r0 - q * r1) + Abs(y0 - q * y1) * r1 == a
    ensures Abs(y1) <= Abs(y0 - q * y1) || (y1 == 1 && y0 - q * y1 == 0)
  {
    RemainderStep(r0, r1, q);
    CoefficientStep(y0, y1, q);
    MagnitudeSum(Abs(y0), Abs(y1), r0, r1, q);
    OrderStep(y0, y1, q, Abs(y0 - q * y1));
  }

  /** The truncated quotient of non-negative by positive leaves a remainder
      in [0, r1). */
  lemma RemainderStep(r0: int, r1: int, q: int)
    requires r0 >= 0 && r1 > 0 && q == r0 / r1
    ensures q >= 0 && 0 <= r0 - q * r1 < r1
  {
    assert r0 == r1 * q + r0 % r1;
  }

  /** The y magnitudes stay ordered: a quotient of at least 1 makes the new
      one at least the old one; a zero quotient only happens on the first,
      swapping step. */
  lemma OrderStep(y0: int, y1: int, q: int, u2: int)
    requires q >= 0 && u2 == Abs(y0) + q * Abs(y1)
    requires q == 0 ==> y0 == 0 && y1 == 1
    ensures Abs(y1) <= u2 || (y1 == 1 && y0 - q * y1 == 0)
  {
    if q >= 1 {
      MulAtLeastSelf(q, Abs(y1));
    }
  }

  lemma MagnitudeSum(u0: int, u1: int, r0: int, r1: int, q: int)
    ensures u1 * (r0 - q * r1) + (u0 + q * u1) * r1 == u0 * r1 + u1 * r0
  {
    assert u1 * (r0 - q * r1) == u1 * r0 - u1 * (q * r1);
    assert (u0 + q * u1) * r1 == u0 * r1 + (q * u1) * r1;
    MulAssocComm(u1, q, r1);
  }

  lemma MulAtLeastSelf(q: int, u: nat)
    requires q >= 1
    ensures q * u >= u
  {
    assert q * u == u + (q - 1) * u;
  }

  /** One step on a pair of coefficients of opposite signs keeps them of
      opposite signs and adds their magnitudes. */
  lemma CoefficientStep(y0: int, y1: int, q: int)
    requires q >= 0 && y0 * y1 <= 0
    ensures y1 * (y0 - q * y1) <= 0
    ensures Abs(y0 - q * y1) == Abs(y0) + q * Abs(y1)
  {
    assert y1 * (y0 - q * y1) == y0 * y1 - q * (y1 * y1);
    assert q * (y1 * y1) >= 0;
    if y1 > 0 {
      assert y0 <= 0;
      assert q * y1 >= 0;
    } else if y1 < 0 {
      assert y0 >= 0;
      assert q * y1 <= 0;
      assert q * Abs(y1) == -(q * y1);
    }
  }

  /** When the remainders reach (1, 0) with a >= 2, the last two y coefficients
      are consecutive (determinant +-1), so the returned one is strictly
      smaller in size than the final one, whose size is a. */
  lemma FinalCoefficientBound(a: int, oldX: int, curX: int, oldY: int, curY: int)
    requires a >= 2 && Abs(curY) == a
    requires oldX * curY - curX * oldY == 1 || oldX * curY - curX * oldY == -1
    requires Abs(oldY) <= Abs(curY) || (oldY == 1 && curY == 0)
    ensures -a < oldY < a
  {
    if Abs(oldY) == Abs(curY) {
      if oldY == curY {
        assert oldX * curY - curX * oldY == curY * (oldX - curX);
        UnitFactor(curY, oldX - curX);
      } else {
        assert oldX * curY - curX * oldY == curY * (oldX + curX);
        UnitFactor(curY, oldX + curX);
      }
    }
  }

  /** What the loop of `extended_euclid` keeps: both remainders are the
      combinations of a and b given by their coefficient pairs, the pair of
      remainders has the gcd of (a, b), consecutive coefficient pairs have
      determinant +-1, and, for non-negative inputs, the y coefficients
      alternate in sign with |old_y|*r + |y|*old_r == a and non-decreasing
      magnitudes (the first swap when a < b aside). */
  ghost predicate EuclidInvariant(a: int, b: int, oldR: int, r: int, oldX: int, curX: int, oldY: int, curY: int)
  {
    && a * oldX + b * oldY == oldR
    && a * curX + b * curY == r
    && Gcd(oldR, r) == Gcd(a, b)
    && (oldX * curY - curX * oldY == 1 || oldX * curY - curX * oldY == -1)
    && (a >= 0 && b >= 0 ==>
          && oldR >= 0 && r >= 0
          && oldY * curY <= 0
          && Abs(oldY) * r + Abs(curY) * oldR == a
          && (oldR < r ==> oldY == 0 && curY == 1)
          && (Abs(oldY) <= Abs(curY) || (oldY == 1 && curY == 0)))
  }

  /** One iteration of the loop keeps EuclidInvariant. */
  lemma EuclidStep(a: int, b: int, oldR: int, r: int, oldX: int, curX: int, oldY: int, curY: int, q: int)
    requires EuclidInvariant(a, b, oldR, r, oldX, curX, oldY, curY)
    requires r != 0 && q == TruncDiv(oldR, r)
    ensures EuclidInvariant(a, b, r, oldR - q * r, curX, oldX - q * curX, curY, oldY - q * curY)
  {
    LinearStep(a, b, oldX, oldY, oldR, curX, curY, r, q);
    DeterminantStep(oldX, curX, oldY, curY, q);
    if a >= 0 && b >= 0 {
      MagnitudeStep(oldY, curY, oldR, r, q, a);
    }
  }

  /** `extended_euclid(a, b)`: runs the remainder sequence of (a, b) while
      carrying the Bezout coefficients along. Returns (x, y, g) with
      a*x + b*y == g == Gcd(a, b). For a >= 2, b >= 0 and gcd 1, the
      coefficient y lies strictly between -a and a, which is what makes the
      derived private exponent a residue modulo a. */
  method ExtendedEuclid(a: int, b: int) returns (x: int, y: int, g: int)
    ensures a * x + b * y == g
    ensures g == Gcd(a, b)
    ensures a >= 2 && b >= 0 && g == 1 ==> -a < y < a
  {
    var oldR, r := a, b;
    var oldX, curX := 1, 0;
    var oldY, curY := 0, 1;
    while r != 0
      invariant EuclidInvariant(a, b, oldR, r, oldX, curX, oldY, curY)
      decreases Abs(r)
    {
      var q := TruncDiv(oldR, r);
      EuclidStep(a, b, oldR, r, oldX, curX, oldY, curY, q);
      oldR, r := r, oldR - q * r;
      oldX, curX := curX, oldX - q * curX;
      oldY, curY := curY, oldY - q * curY;
    }
    if a >= 2 && b >= 0 && oldR == 1 {
      assert Abs(curY) == a;
      FinalCoefficientBound(a, oldX, curX, oldY, curY);
    }
    x, y, g := oldX, oldY, oldR;
  }
}
