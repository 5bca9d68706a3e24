/**
 Short Weierstrass curves y^2 = x^3 + a x + b in Jacobian coordinates: a triple
 (X, Y, Z) with Z nonzero stands for the affine point (X / Z^2, Y / Z^3), and a
 triple with Z zero for the point at infinity.

 Here is the affine group law (section 2.2.1 of SEC 1) and the proof that it
 stays on the curve.  The program's division-free formulas are in
 JacobianFormulas, and JacobianGroup relates them to this law.
 */
module Weierstrass {
  import opened PrimeField

  datatype Curve = Curve(p: OddPrime, a: nat, b: nat)

  predicate Valid(E: Curve) {
    IsResidue(E.p, E.a) && IsResidue(E.p, E.b)
  }

  // ----- the affine group law

  /** x^3 + a x + b - y^2 over the integers. */
  function Residual(a: int, b: int, x: int, y: int): int {
    x * x * x + a * x + b - y * y
  }

  predicate InField(E: Curve, A: Point) {
    A.Affine? ==> IsResidue(E.p, A.x) && IsResidue(E.p, A.y)
  }

  predicate OnCurve(E: Curve, A: Point) {
    InField(E, A) && (A.Affine? ==> Red(E.p, Residual(E.a, E.b, A.x, A.y)) == 0)
  }

  /** The third intersection of the line of slope l through (x1, y1), whose
      other intersection has x-coordinate x2, reflected in the x-axis. */
  function LinePoint(p: OddPrime, l: nat, x1: nat, y1: nat, x2: nat): Point {
    var x3 := Sub(p, Mul(p, l, l), Add(p, x1, x2));
    Affine(x3, Sub(p, Mul(p, l, Sub(p, x1, x3)), y1))
  }

  function TangentSlope(E: Curve, x: nat, y: nat): (l: nat)
    requires IsResidue(E.p, y) && y != 0
    ensures IsResidue(E.p, l)
  {
    DoubleNonzero(E.p, y);
    Div(E.p, Red(E.p, 3 * x * x + E.a), Add(E.p, y, y))
  }

  function Plus(E: Curve, A: Point, B: Point): (S: Point)
    requires InField(E, A) && InField(E, B)
    ensures InField(E, S)
  {
    if A.Infinity? then B
    else if B.Infinity? then A
    else if A.x != B.x then
      SubZero(E.p, B.x, A.x);
      LinePoint(E.p, Div(E.p, Sub(E.p, B.y, A.y), Sub(E.p, B.x, A.x)), A.x, A.y, B.x)
    else if A.y == B.y && A.y != 0 then
      LinePoint(E.p, TangentSlope(E, A.x, A.y), A.x, A.y, A.x)
    else
      Infinity
  }

  lemma DoubleNonzero(p: OddPrime, y: nat)
    requires IsResidue(p, y) && y != 0
    ensures Add(p, y, y) != 0
  {
    hide Red;
    assert y + y == 2 * y;
    ZeroProduct(p, 2, y);
    Reduced(p, 2);
    Reduced(p, y);
  }

  // ----- the group law stays on the curve

  /** Along the line of slope l through (x, y), the residual changes by the
      step u times a quadratic in u. */
  function Quadratic(a: int, l: int, x: int, y: int, u: int): int {
    u * u + (3 * x - l * l) * u + (3 * x * x + a - 2 * l * y)
  }

  lemma ResidualAlongLine(a: int, b: int, l: int, x: int, y: int, u: int)
    ensures Residual(a, b, x + u, y + l * u) == Residual(a, b, x, y) + u * Quadratic(a, l, x, y, u)
  {
  }

  /** The quadratic takes the same value at both remaining intersections. */
  lemma QuadraticRoots(a: int, l: int, x: int, y: int, d: int)
    ensures Quadratic(a, l, x, y, d) == Quadratic(a, l, x, y, l * l - 3 * x - d)
  {
    var u := l * l - 3 * x - d;
    assert u * u - d * d + (3 * x - l * l) * (u - d) == (u - d) * (u + d + 3 * x - l * l);
  }

  lemma LineStaysOnCurve(p: OddPrime, a: int, b: int, l: int, x: int, y: int, d: int)
    requires Red(p, Residual(a, b, x, y)) == 0 && Red(p, Quadratic(a, l, x, y, d)) == 0
    ensures var x3 := LineX(l, x, x + d);
            Red(p, Residual(a, b, x3, LineY(l, x, y, x3))) == 0
  {
    hide Red, Residual, Quadratic;
    var u := l * l - 3 * x - d;
    QuadraticRoots(a, l, x, y, d);
    ResidualAlongLine(a, b, l, x, y, u);
    ZeroProduct(p, u, Quadratic(a, l, x, y, u));
    ZeroSum(p, Residual(a, b, x, y), u * Quadratic(a, l, x, y, u));
    Reflect(a, b, l, x, y, u);
  }

  lemma Reflect(a: int, b: int, l: int, x: int, y: int, u: int)
    ensures Residual(a, b, x + u, l * (x - (x + u)) - y) == Residual(a, b, x + u, y + l * u)
  {
    var v := y + l * u;
    assert l * (x - (x + u)) - y == -v;
    assert (-v) * (-v) == v * v;
  }

  /** The residual as a field expression. */
  function FieldResidual(p: OddPrime, a: int, b: int, x: int, y: int): nat {
    Sub(p, Add(p, Add(p, Mul(p, Mul(p, x, x), x), Mul(p, a, x)), b), Mul(p, y, y))
  }

  lemma FieldResidualHom(p: OddPrime, a: int, b: int, x: int, y: int)
    ensures FieldResidual(p, Red(p, a), Red(p, b), Red(p, x), Red(p, y)) == Red(p, Residual(a, b, x, y))
  {
    Homomorphism(p);
    hide IsResidue, Red, Add, Sub, Mul;
  }

  lemma ResidualOfRed(p: OddPrime, a: int, b: int, x: int, y: int)
    ensures Red(p, Residual(a, b, Red(p, x), Red(p, y))) == Red(p, Residual(a, b, x, y))
  {
    hide *;
    FieldResidualHom(p, a, b, x, y);
    FieldResidualHom(p, a, b, Red(p, x), Red(p, y));
    RedOfRed(p, x);
    RedOfRed(p, y);
  }

  /** The line of slope l through (x1, y1) meets the curve again at x2 and at
      LineX; LineY is the reflected y-coordinate there. */
  function LineX(l: int, x1: int, x2: int): int {
    l * l - (x1 + x2)
  }

  function LineY(l: int, x1: int, y1: int, x3: int): int {
    l * (x1 - x3) - y1
  }

  lemma LinePointHom(p: OddPrime, l: int, x1: int, y1: int, x2: int)
    ensures LinePoint(p, Red(p, l), Red(p, x1), Red(p, y1), Red(p, x2))
         == Affine(Red(p, l * l - (x1 + x2)), Red(p, l * (x1 - (l * l - (x1 + x2))) - y1))
  {
    hide IsResidue, Red, Add, Sub, Mul;
    Homomorphism(p);
  }

  lemma LinePointReduced(p: OddPrime, l: nat, x1: nat, y1: nat, x2: nat)
    requires IsResidue(p, l) && IsResidue(p, x1) && IsResidue(p, y1) && IsResidue(p, x2)
    ensures var x3 := LineX(l, x1, x2);
            LinePoint(p, l, x1, y1, x2) == Affine(Red(p, x3), Red(p, LineY(l, x1, y1, x3)))
  {
    hide Red, LinePoint;
    LinePointHom(p, l, x1, y1, x2);
    Reduced(p, l);
    Reduced(p, x1);
    Reduced(p, y1);
    Reduced(p, x2);
  }

  /** The points of the curve are closed under the group law. */
  lemma PlusOnCurve(E: Curve, A: Point, B: Point)
    requires OnCurve(E, A) && OnCurve(E, B)
    ensures OnCurve(E, Plus(E, A, B))
  {
    hide Red, Residual, Quadratic, LineX, LineY, Add, Sub, Mul, Div, Slope, LinePoint, TangentSlope;
    if A.Affine? && B.Affine? && (A.x != B.x || (A.y == B.y && A.y != 0)) {
      var l := Slope(E, A, B);
      SlopeOnQuadratic(E, A, B);
      LinePointReduced(E.p, l, A.x, A.y, B.x);
      LineStaysOnCurve(E.p, E.a, E.b, l, A.x, A.y, B.x - A.x);
      var x3 := LineX(l, A.x, B.x);
      ResidualOfRed(E.p, E.a, E.b, x3, LineY(l, A.x, A.y, x3));
    }
  }

  /** The slope of the chord, or of the tangent when the points are equal. */
  function Slope(E: Curve, A: Point, B: Point): (l: nat)
    requires InField(E, A) && InField(E, B) && A.Affine? && B.Affine?
    requires A.x != B.x || (A.y == B.y && A.y != 0)
    ensures IsResidue(E.p, l) && Plus(E, A, B) == LinePoint(E.p, l, A.x, A.y, B.x)
  {
    if A.x != B.x then
      SubZero(E.p, B.x, A.x);
      Div(E.p, Sub(E.p, B.y, A.y), Sub(E.p, B.x, A.x))
    else
      TangentSlope(E, A.x, A.y)
  }

  lemma SlopeOnQuadratic(E: Curve, A: Point, B: Point)
    requires OnCurve(E, A) && OnCurve(E, B) && A.Affine? && B.Affine?
    requires A.x != B.x || (A.y == B.y && A.y != 0)
    ensures Red(E.p, Quadratic(E.a, Slope(E, A, B), A.x, A.y, B.x - A.x)) == 0
  {
    if A.x != B.x {
      ChordOnQuadratic(E, A.x, A.y, B.x, B.y, Slope(E, A, B));
    } else {
      TangentOnQuadratic(E, A.x, A.y, Slope(E, A, B));
    }
  }

  lemma ChordOnQuadratic(E: Curve, x1: nat, y1: nat, x2: nat, y2: nat, l: nat)
    requires OnCurve(E, Affine(x1, y1)) && OnCurve(E, Affine(x2, y2)) && x1 != x2 && IsResidue(E.p, l)
    requires Mul(E.p, l, Sub(E.p, x2, x1)) == Sub(E.p, y2, y1)
    ensures Red(E.p, Quadratic(E.a, l, x1, y1, x2 - x1)) == 0
  {
    hide Red, Quadratic, Residual, Mul, Sub;
    var p, d := E.p, x2 - x1;
    OnLine(p, l, x1, y1, x2, y2);
    assert Red(p, Residual(E.a, E.b, x1 + d, y1 + l * d)) == 0 by {
      Reduced(p, x2);
      ResidualOfRed(p, E.a, E.b, x2, y1 + l * d);
    }
    ResidualAlongLine(E.a, E.b, l, x1, y1, d);
    ZeroSum(p, Residual(E.a, E.b, x1, y1), d * Quadratic(E.a, l, x1, y1, d));
    ZeroProduct(p, d, Quadratic(E.a, l, x1, y1, d));
    CongSub(p, x2, x1);
    Reduced(p, x1);
    Reduced(p, x2);
  }

  lemma OnLine(p: OddPrime, l: nat, x1: nat, y1: nat, x2: nat, y2: nat)
    requires IsResidue(p, y2) && IsResidue(p, l) && Mul(p, l, Sub(p, x2, x1)) == Sub(p, y2, y1)
    ensures Red(p, y1 + l * (x2 - x1)) == y2
  {
    hide Red;
    QuotientCongruence(p, l, x2 - x1, y2 - y1);
    var e := l * (x2 - x1);
    CongSub(p, e, y2 - y1);
    CongSub(p, y1 + e, y2);
    Reduced(p, y2);
  }

  lemma TangentOnQuadratic(E: Curve, x: nat, y: nat, l: nat)
    requires IsResidue(E.p, x) && IsResidue(E.p, y) && y != 0 && l == TangentSlope(E, x, y)
    ensures Red(E.p, Quadratic(E.a, l, x, y, 0)) == 0
  {
    hide Red, Mul, Quadratic, Residual;
    var p, n, d := E.p, 3 * x * x + E.a, y + y;
    DoubleNonzero(p, y);
    QuotientCongruence(p, l, d, n);
    CongSub(p, n, l * d);
    TangentQuadratic(E.a, l, x, y);
  }

  lemma TangentQuadratic(a: int, l: int, x: int, y: int)
    ensures Quadratic(a, l, x, y, 0) == 3 * x * x + a - l * (y + y)
  {
  }
}
