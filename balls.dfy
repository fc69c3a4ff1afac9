/** Ball (midpoint-radius) arithmetic, as the LDL engine consumes it.
    A ball stands for the closed interval [mid - rad, mid + rad]; `Indeterminate`
    is the ball of infinite radius that a division by a zero-containing divisor yields.
    The operations are exact: midpoints are computed without rounding and radii are
    the exact propagated error bounds. */
module Balls {

  type Radius = r: real | 0.0 <= r

  datatype Ball = Ball(mid: real, rad: Radius) | Indeterminate {

    /** The exact value x lies in the ball. */
    predicate Contains(x: real) {
      Indeterminate? || (mid - rad <= x && x <= mid + rad)
    }

    /** arb_is_positive: the whole ball lies strictly above zero. */
    predicate IsPositive() {
      Ball? && mid - rad > 0.0
    }

    /** The ball may contain zero (a divisor that cannot be used). */
    predicate MayBeZero() {
      Indeterminate? || Abs(mid) <= rad
    }
  }

  function Abs(x: real): real {
    if x < 0.0 then -x else x
  }

  /** The exact zero ball (arb_zero). */
  const Zero: Ball := Ball(0.0, 0.0)

  /** The exact one ball (arb_one). */
  const One: Ball := Ball(1.0, 0.0)

  function Neg(a: Ball): (r: Ball)
    ensures forall x {:trigger a.Contains(x)} :: a.Contains(x) ==> r.Contains(-x)
  {
    if a.Indeterminate? then Indeterminate else Ball(-a.mid, a.rad)
  }

  function Add(a: Ball, b: Ball): Ball {
    if a.Indeterminate? || b.Indeterminate? then Indeterminate
    else Ball(a.mid + b.mid, a.rad + b.rad)
  }

  function Sub(a: Ball, b: Ball): Ball {
    if a.Indeterminate? || b.Indeterminate? then Indeterminate
    else Ball(a.mid - b.mid, a.rad + b.rad)
  }

  /** Radius of a product: |ma| rb + |mb| ra + ra rb. */
  function MulRad(ma: real, ra: Radius, mb: real, rb: Radius): Radius {
    AbsNonNeg(ma);
    AbsNonNeg(mb);
    NonNegMul(Abs(ma), rb);
    NonNegMul(Abs(mb), ra);
    NonNegMul(ra, rb);
    Abs(ma) * rb + Abs(mb) * ra + ra * rb
  }

  /** arb_mul. */
  function Mul(a: Ball, b: Ball): Ball {
    if a.Indeterminate? || b.Indeterminate? then Indeterminate
    else Ball(a.mid * b.mid, MulRad(a.mid, a.rad, b.mid, b.rad))
  }

  /** arb_submul: z - x * y. */
  function SubMul(z: Ball, x: Ball, y: Ball): Ball {
    Sub(z, Mul(x, y))
  }

  /** _arb_sqr: the square of a ball, as the product of the ball with itself. */
  function Sqr(a: Ball): Ball {
    Mul(a, a)
  }

  /** Radius of a quotient by a ball above zero: (|ma| rb + mb ra) / (mb (mb - rb)). */
  function QuotRad(ma: real, ra: Radius, mb: real, rb: Radius): Radius
    requires rb < mb
  {
    AbsNonNeg(ma);
    QuotRadNonNeg(Abs(ma), ra, mb, rb);
    (Abs(ma) * rb + mb * ra) / (mb * (mb - rb))
  }

  /** Division by a ball that lies strictly above zero. */
  function PosDiv(a: Ball, b: Ball): Ball
    requires a.Ball? && b.Ball? && b.mid > b.rad
  {
    Ball(a.mid / b.mid, QuotRad(a.mid, a.rad, b.mid, b.rad))
  }

  /** arb_div: a divisor that may be zero yields the indeterminate ball; a divisor below
      zero is handled through a / b = -(a / -b). */
  function Div(a: Ball, b: Ball): Ball {
    if a.Indeterminate? || b.MayBeZero() then Indeterminate
    else if b.mid > 0.0 then PosDiv(a, b)
    else Neg(PosDiv(a, Neg(b)))
  }

  // ---------------------------------------------------------------------------
  // Exact operations on zeros and ones, as a factorisation of the identity performs them

  lemma ZeroOverOne()
    ensures Div(Zero, One) == Zero
  {
    var d := Div(Zero, One);
    assert d.Ball? && d.mid == Zero.mid && d.rad == Zero.rad;
  }

  /** A product with an exact zero factor and an exact other factor is an exact zero. */
  lemma MulExactZero(y: Ball, w: Ball)
    requires y.Ball? && y.mid == 0.0 && y.rad == 0.0 && w.Ball? && w.rad == 0.0
    ensures Mul(y, w).Ball? && Mul(y, w).mid == 0.0 && Mul(y, w).rad == 0.0
  {
    assert MulRad(y.mid, y.rad, w.mid, w.rad) == Abs(0.0) * 0.0 + Abs(w.mid) * 0.0 + 0.0 * 0.0;
  }

  /** Subtracting an exact multiple of an exact zero changes nothing. */
  lemma SubMulExactZero(z: Ball, x: Ball, p: Ball)
    requires z.Ball? && x.Ball? && x.rad == 0.0 && p.Ball? && p.mid == 0.0 && p.rad == 0.0
    ensures SubMul(z, x, p) == z
  {
    MulExactZero(p, x);
    var q := Mul(x, p);
    assert q.mid == x.mid * 0.0 == 0.0;
    assert q.rad == Abs(x.mid) * 0.0 + Abs(0.0) * 0.0 + 0.0 * 0.0 == 0.0;
    var r := SubMul(z, x, p);
    assert r.Ball? && r.mid == z.mid && r.rad == z.rad;
  }

  // ---------------------------------------------------------------------------
  // Real-arithmetic helpers

  lemma AbsNonNeg(x: real)
    ensures 0.0 <= Abs(x)
  {}

  lemma NonNegMul(x: real, y: real)
    requires 0.0 <= x && 0.0 <= y
    ensures 0.0 <= x * y
  {}

  lemma PosMul(x: real, y: real)
    requires 0.0 < x && 0.0 < y
    ensures 0.0 < x * y
  {}

  lemma QuotRadNonNeg(am: real, ra: real, mb: real, rb: real)
    requires 0.0 <= am && 0.0 <= ra && 0.0 <= rb < mb
    ensures 0.0 <= (am * rb + mb * ra) / (mb * (mb - rb))
  {
    NonNegMul(am, rb);
    NonNegMul(mb, ra);
    PosMul(mb, mb - rb);
    NonNegDiv(am * rb + mb * ra, mb * (mb - rb));
  }

  lemma NonNegDiv(x: real, y: real)
    requires 0.0 <= x && 0.0 < y
    ensures 0.0 <= x / y
  {}

  lemma AbsMul(x: real, y: real)
    ensures Abs(x * y) == Abs(x) * Abs(y)
  {
    if x < 0.0 && y < 0.0 {
      assert x * y == (-x) * (-y);
    } else if x < 0.0 {
      assert -(x * y) == (-x) * y;
    } else if y < 0.0 {
      assert -(x * y) == x * (-y);
    }
  }

  lemma MulMono(x: real, y: real, bx: real, bY: real)
    requires 0.0 <= x <= bx && 0.0 <= y <= bY
    ensures x * y <= bx * bY
  {
    assert x * y <= bx * y;
    assert bx * y <= bx * bY;
  }

  /** |p q| <= bp bq when |p| <= bp and |q| <= bq. */
  lemma BoundProduct(p: real, q: real, bp: real, bq: real)
    requires Abs(p) <= bp && Abs(q) <= bq
    ensures Abs(p * q) <= bp * bq
  {
    AbsMul(p, q);
    MulMono(Abs(p), Abs(q), bp, bq);
  }

  lemma ExpandProduct(x: real, y: real, ma: real, mb: real)
    ensures x * y - ma * mb == ma * (y - mb) + mb * (x - ma) + (x - ma) * (y - mb)
  {}

  lemma ExpandCross(x: real, y: real, ma: real, mb: real)
    ensures x * mb - ma * y == (x - ma) * mb - ma * (y - mb)
  {}

  lemma ProductTerms(d: real, ma: real, mb: real, e1: real, e2: real, ra: real, rb: real)
    requires Abs(e1) <= ra && Abs(e2) <= rb && d == ma * e2 + mb * e1 + e1 * e2
    ensures Abs(d) <= Abs(ma) * rb + Abs(mb) * ra + ra * rb
  {
    BoundProduct(ma, e2, Abs(ma), rb);
    BoundProduct(mb, e1, Abs(mb), ra);
    BoundProduct(e1, e2, ra, rb);
    TriangleThree(d, ma * e2, mb * e1, e1 * e2, Abs(ma) * rb, Abs(mb) * ra, ra * rb);
  }

  /** The triangle inequality for three terms, each with its own bound. */
  lemma TriangleThree(d: real, t1: real, t2: real, t3: real, b1: real, b2: real, b3: real)
    requires d == t1 + t2 + t3 && Abs(t1) <= b1 && Abs(t2) <= b2 && Abs(t3) <= b3
    ensures Abs(d) <= b1 + b2 + b3
  {}

  lemma CrossTerms(d: real, ma: real, mb: real, e1: real, e2: real, ra: real, rb: real)
    requires Abs(e1) <= ra && Abs(e2) <= rb && d == e1 * mb - ma * e2
    ensures Abs(d) <= Abs(ma) * rb + Abs(mb) * ra
  {
    BoundProduct(e1, mb, ra, Abs(mb));
    BoundProduct(ma, e2, Abs(ma), rb);
    TriangleTwo(d, e1 * mb, ma * e2, ra * Abs(mb), Abs(ma) * rb);
  }

  /** The triangle inequality for a difference of two terms, each with its own bound. */
  lemma TriangleTwo(d: real, t1: real, t2: real, b1: real, b2: real)
    requires d == t1 - t2 && Abs(t1) <= b1 && Abs(t2) <= b2
    ensures Abs(d) <= b2 + b1
  {}

  /** |x y - ma mb| <= |ma| rb + |mb| ra + ra rb when |x - ma| <= ra and |y - mb| <= rb. */
  lemma ProductError(x: real, y: real, ma: real, ra: real, mb: real, rb: real)
    requires Abs(x - ma) <= ra && Abs(y - mb) <= rb
    ensures Abs(x * y - ma * mb) <= Abs(ma) * rb + Abs(mb) * ra + ra * rb
  {
    ExpandProduct(x, y, ma, mb);
    ProductTerms(x * y - ma * mb, ma, mb, x - ma, y - mb, ra, rb);
  }

  /** |x mb - ma y| <= |ma| rb + |mb| ra when |x - ma| <= ra and |y - mb| <= rb. */
  lemma CrossError(x: real, y: real, ma: real, ra: real, mb: real, rb: real)
    requires Abs(x - ma) <= ra && Abs(y - mb) <= rb
    ensures Abs(x * mb - ma * y) <= Abs(ma) * rb + Abs(mb) * ra
  {
    ExpandCross(x, y, ma, mb);
    CrossTerms(x * mb - ma * y, ma, mb, x - ma, y - mb, ra, rb);
  }

  /** CrossError for a positive mb, with |mb| written as mb. */
  lemma PositiveCrossError(x: real, y: real, ma: real, ra: real, mb: real, rb: real)
    requires Abs(x - ma) <= ra && Abs(y - mb) <= rb && 0.0 < mb
    ensures Abs(x * mb - ma * y) <= Abs(ma) * rb + mb * ra
  {
    CrossError(x, y, ma, ra, mb, rb);
    assert Abs(mb) == mb;
  }

  /** y mb >= mb (mb - rb) > 0 when |y - mb| <= rb < mb. */
  lemma DenominatorBound(y: real, mb: real, rb: real)
    requires Abs(y - mb) <= rb < mb && 0.0 <= rb
    ensures 0.0 < y && 0.0 < mb * (mb - rb) <= y * mb
  {
    assert mb - rb <= y;
    assert mb * (mb - rb) <= mb * y;
  }

  lemma QuotientDifference(x: real, y: real, ma: real, mb: real)
    requires 0.0 < y && 0.0 < mb
    ensures Abs(x / y - ma / mb) == Abs(x * mb - ma * y) / (y * mb)
  {
    assert x / y - ma / mb == (x * mb - ma * y) / (y * mb);
    assert y * mb > 0.0;
  }

  /** 0 <= p <= q and 0 < d <= e give p / e <= q / d. */
  lemma QuotientMono(p: real, q: real, d: real, e: real)
    requires 0.0 <= p <= q && 0.0 < d <= e
    ensures p / e <= q / d
  {
    assert p / e <= q / e;
    assert q / e <= q / d by {
      assert q / d - q / e == q * (e - d) / (d * e);
      NonNegMul(q, e - d);
      PosMul(d, e);
    }
  }

  /** The abstract last step of the quotient bound. */
  lemma QuotientError(diffAbs: real, numAbs: real, q: real, bound: real, den: real)
    requires 0.0 < den
    requires den <= q
    requires diffAbs == numAbs / q
    requires 0.0 <= numAbs
    requires numAbs <= bound
    ensures diffAbs <= bound / den
  {
    QuotientMono(numAbs, bound, den, q);
  }

  /** The quantities of the quotient bound, each named and with the facts it satisfies. */
  lemma QuotientPieces(x: real, y: real, ma: real, ra: real, mb: real, rb: real)
    returns (diffAbs: real, numAbs: real, q: real, bound: real, den: real)
    requires Abs(x - ma) <= ra && Abs(y - mb) <= rb < mb && 0.0 <= rb
    ensures 0.0 < y && 0.0 < mb
    ensures diffAbs == Abs(x / y - ma / mb) && bound == Abs(ma) * rb + mb * ra
    ensures den == mb * (mb - rb)
    ensures 0.0 < den <= q && diffAbs == numAbs / q && 0.0 <= numAbs <= bound
  {
    PositiveCrossError(x, y, ma, ra, mb, rb);
    DenominatorBound(y, mb, rb);
    QuotientDifference(x, y, ma, mb);
    AbsNonNeg(x * mb - ma * y);
    diffAbs, numAbs, q := Abs(x / y - ma / mb), Abs(x * mb - ma * y), y * mb;
    bound, den := Abs(ma) * rb + mb * ra, mb * (mb - rb);
  }

  /** |x / y - ma / mb| <= (|ma| rb + mb ra) / (mb (mb - rb)) when |x - ma| <= ra and
      |y - mb| <= rb < mb. */
  lemma QuotientBallError(x: real, y: real, ma: real, ra: real, mb: real, rb: real)
    requires Abs(x - ma) <= ra && Abs(y - mb) <= rb < mb && 0.0 <= rb
    ensures Abs(x / y - ma / mb) <= (Abs(ma) * rb + mb * ra) / (mb * (mb - rb))
  {
    var diffAbs, numAbs, q, bound, den := QuotientPieces(x, y, ma, ra, mb, rb);
    QuotientError(diffAbs, numAbs, q, bound, den);
  }

  lemma WithinContains(c: Ball, v: real)
    requires c.Ball? && Abs(v - c.mid) <= c.rad
    ensures c.Contains(v)
  {}

  lemma ContainsAbs(b: Ball, x: real)
    requires b.Ball?
    ensures b.Contains(x) <==> Abs(x - b.mid) <= b.rad
  {}

  // ---------------------------------------------------------------------------
  // Containment: each operation contains the exact result of its operands.

  lemma AddContains(a: Ball, b: Ball, x: real, y: real)
    requires a.Contains(x) && b.Contains(y)
    ensures Add(a, b).Contains(x + y)
  {}

  lemma SubContains(a: Ball, b: Ball, x: real, y: real)
    requires a.Contains(x) && b.Contains(y)
    ensures Sub(a, b).Contains(x - y)
  {}

  lemma MulContains(a: Ball, b: Ball, x: real, y: real)
    requires a.Contains(x) && b.Contains(y)
    ensures Mul(a, b).Contains(x * y)
  {
    if a.Ball? && b.Ball? {
      ContainsAbs(a, x);
      ContainsAbs(b, y);
      var c := Mul(a, b);
      assert c.Ball? && c.mid == a.mid * b.mid && c.rad == MulRad(a.mid, a.rad, b.mid, b.rad);
      ProductBallContains(a.mid, a.rad, b.mid, b.rad, c, x, y);
    }
  }

  /** The product ball of two balls contains the product of any two of their points. */
  lemma ProductBallContains(ma: real, ra: Radius, mb: real, rb: Radius, c: Ball, x: real, y: real)
    requires c.Ball? && c.mid == ma * mb && c.rad == MulRad(ma, ra, mb, rb)
    requires Abs(x - ma) <= ra && Abs(y - mb) <= rb
    ensures c.Contains(x * y)
  {
    ProductError(x, y, ma, ra, mb, rb);
    assert c.rad == Abs(ma) * rb + Abs(mb) * ra + ra * rb;
    WithinContains(c, x * y);
  }

  lemma SubMulContains(z: Ball, a: Ball, b: Ball, w: real, x: real, y: real)
    requires z.Contains(w) && a.Contains(x) && b.Contains(y)
    ensures SubMul(z, a, b).Contains(w - x * y)
  {
    MulContains(a, b, x, y);
    SubContains(z, Mul(a, b), w, x * y);
  }

  lemma SqrContains(a: Ball, x: real)
    requires a.Contains(x)
    ensures Sqr(a).Contains(x * x)
  {
    MulContains(a, a, x, x);
  }

  lemma DivContains(a: Ball, b: Ball, x: real, y: real)
    requires a.Contains(x) && b.Contains(y) && y != 0.0
    ensures Div(a, b).Contains(x / y)
  {
    if a.Ball? && !b.MayBeZero() {
      if b.mid > 0.0 {
        PosDivContains(a, b, x, y);
      } else {
        PosDivContains(a, Neg(b), x, -y);
        assert x / y == -(x / -y);
      }
    }
  }

  lemma QuotientWithin(c: Ball, x: real, y: real, ma: real, ra: Radius, mb: real, rb: Radius)
    requires Abs(x - ma) <= ra && Abs(y - mb) <= rb < mb && 0.0 <= rb
    requires c == Ball(ma / mb, QuotRad(ma, ra, mb, rb))
    ensures c.Contains(x / y)
  {
    QuotientBallError(x, y, ma, ra, mb, rb);
    WithinContains(c, x / y);
  }

  lemma PosDivContains(a: Ball, b: Ball, x: real, y: real)
    requires a.Ball? && b.Ball? && b.mid > b.rad
    requires a.Contains(x) && b.Contains(y)
    ensures y != 0.0 && PosDiv(a, b).Contains(x / y)
  {
    ContainsAbs(a, x);
    ContainsAbs(b, y);
    QuotientWithin(PosDiv(a, b), x, y, a.mid, a.rad, b.mid, b.rad);
  }

  /** A positive ball contains only positive values. */
  lemma PositiveContains(b: Ball, x: real)
    requires b.IsPositive() && b.Contains(x)
    ensures x > 0.0
  {}

  /** A ball that is certified positive cannot be mistaken for a possible zero. */
  lemma PositiveNotZero(b: Ball)
    requires b.IsPositive()
    ensures !b.MayBeZero()
  {}

  /** A ball that cannot be zero contains no zero. */
  lemma MayBeZeroContains(b: Ball)
    requires !b.MayBeZero()
    ensures !b.Contains(0.0)
  {}
}
