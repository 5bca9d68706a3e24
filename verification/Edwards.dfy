/**
 Twisted Edwards curves a x^2 + y^2 = 1 + d x^2 y^2 in extended coordinates:
 (X, Y, Z, T) with x = X / Z, y = Y / Z and X Y = Z T.

 Here is the affine addition rule and the proof that its denominators never
 vanish when a is a square and d is not.  EdwardsExtended shows that the program's
 formulas keep the extended invariants, compute this rule and respect the
 program's equality test.
 */
module Edwards {
  import opened PrimeField

  datatype Curve = Curve(p: OddPrime, d: nat, a: nat)

  datatype Extended = Extended(X: int, Y: int, Z: int, T: int)

  datatype EPoint = EPoint(x: nat, y: nat)

  predicate InRange(E: Curve) {
    IsResidue(E.p, E.a) && IsResidue(E.p, E.d)
  }

  // ----- the affine addition rule

  function Residual(a: int, d: int, x: int, y: int): int {
    a * (x * x) + y * y - (1 + d * (x * x * (y * y)))
  }

  predicate InField(E: Curve, A: EPoint) {
    IsResidue(E.p, A.x) && IsResidue(E.p, A.y)
  }

  predicate OnCurve(E: Curve, A: EPoint) {
    InField(E, A) && Red(E.p, Residual(E.a, E.d, A.x, A.y)) == 0
  }

  /** d x1 x2 y1 y2 */
  function Twist(d: int, x1: int, y1: int, x2: int, y2: int): int {
    d * (x1 * x2 * (y1 * y2))
  }

  /** Both denominators of the addition rule are nonzero. */
  predicate Summable(E: Curve, A: EPoint, B: EPoint) {
    var t := Twist(E.d, A.x, A.y, B.x, B.y);
    Red(E.p, 1 + t) != 0 && Red(E.p, 1 - t) != 0
  }

  function XNumerator(A: EPoint, B: EPoint): int { A.x * B.y + A.y * B.x }

  function YNumerator(a: int, A: EPoint, B: EPoint): int { A.y * B.y - a * (A.x * B.x) }

  function Plus(E: Curve, A: EPoint, B: EPoint): (S: EPoint)
    requires Summable(E, A, B)
    ensures InField(E, S)
  {
    var p, t := E.p, Twist(E.d, A.x, A.y, B.x, B.y);
    EPoint(Div(p, Red(p, XNumerator(A, B)), Red(p, 1 + t)), Div(p, Red(p, YNumerator(E.a, A, B)), Red(p, 1 - t)))
  }

  /** The curve is complete: a is a nonzero square and d is not a square. */
  ghost predicate Complete(E: Curve) {
    && InRange(E) && E.a != 0
    && (exists r: nat :: IsSquareRoot(E.p, r, E.a))
    && (forall r: nat :: !IsSquareRoot(E.p, r, E.d))
  }

  predicate IsSquareRoot(p: OddPrime, r: nat, s: nat) {
    IsResidue(p, r) && Mul(p, r, r) == s
  }

  // ----- completeness

  /** With e = d x1 x2 y1 y2 equal to one or minus one, the square of
      r x1 + e y1 is d times the square of x1 y1 (r x2 + y2), up to multiples
      of the two curve equations and of e^2 - 1. */
  lemma CompletenessIdentity(a: int, d: int, r: int, e: int, x1: int, y1: int, x2: int, y2: int)
    requires e == Twist(d, x1, y1, x2, y2) && a == r * r
    ensures (r * x1 + e * y1) * (r * x1 + e * y1) - d * (x1 * y1 * (r * x2 + y2) * (x1 * y1 * (r * x2 + y2)))
         == Residual(a, d, x1, y1) - d * (x1 * x1 * (y1 * y1)) * Residual(a, d, x2, y2) + (e * e - 1) * (y1 * y1 - 1)
  {
    hide *;
    var w, s2, v2 := x1 * y1, a * (x2 * x2) + y2 * y2, d * (x2 * x2 * (y2 * y2));
    var U := d * (w * w);
    SquareOfSum(r, e, x1, y1, a);
    ScaledSquare(d, r, w, x2, y2, a);
    CrossTerm(d, r, e, x1, y1, x2, y2);
    TwistSquare(d, e, x1, y1, x2, y2);
    ScaledResidual(U, a, d, x2, y2);
    FirstResidual(a, d, x1, y1);
    Collect(e * e, y1 * y1, U * s2, U, a * (x1 * x1), e * (r * w));
  }

  lemma FirstResidual(a: int, d: int, x: int, y: int)
    ensures Residual(a, d, x, y) == a * (x * x) + y * y - 1 - d * (x * y * (x * y))
    ensures d * (x * x * (y * y)) == d * (x * y * (x * y))
  {
    assert x * x * (y * y) == x * y * (x * y);
  }

  lemma Collect(ee: int, yy: int, us: int, u: int, ax: int, c: int)
    ensures ax + 2 * c + ee * yy - (us + 2 * c) == ax + yy - 1 - u - (us - u - ee) + (ee - 1) * (yy - 1)
  {
  }

  lemma SquareOfSum(r: int, e: int, x: int, y: int, a: int)
    requires a == r * r
    ensures (r * x + e * y) * (r * x + e * y) == a * (x * x) + 2 * (e * (r * (x * y))) + e * e * (y * y)
  {
    var u, v := r * x, e * y;
    assert (u + v) * (u + v) == u * u + 2 * (u * v) + v * v;
    ProductSquared(r, x);
    ProductSquared(e, y);
    MixedProduct(r, e, x, y);
  }

  lemma MixedProduct(r: int, e: int, x: int, y: int)
    ensures r * x * (e * y) == e * (r * (x * y))
  {
  }

  lemma ScaledSquare(d: int, r: int, w: int, x: int, y: int, a: int)
    requires a == r * r
    ensures d * (w * (r * x + y) * (w * (r * x + y)))
         == d * (w * w) * (a * (x * x) + y * y) + 2 * (d * (w * w) * (r * (x * y)))
  {
    var q := r * x + y;
    SquareOfSum(r, 1, x, y, a);
    assert 1 * y == y && 1 * (r * (x * y)) == r * (x * y);
    assert q * q == a * (x * x) + y * y + 2 * (r * (x * y));
    assert d * (w * q * (w * q)) == d * (w * w) * (q * q);
  }

  lemma CrossTerm(d: int, r: int, e: int, x1: int, y1: int, x2: int, y2: int)
    requires e == Twist(d, x1, y1, x2, y2)
    ensures d * (x1 * y1 * (x1 * y1)) * (r * (x2 * y2)) == e * (r * (x1 * y1))
  {
  }

  lemma TwistSquare(d: int, e: int, x1: int, y1: int, x2: int, y2: int)
    requires e == Twist(d, x1, y1, x2, y2)
    ensures d * (x1 * y1 * (x1 * y1)) * (d * (x2 * x2 * (y2 * y2))) == e * e
  {
    var w := x1 * x2 * (y1 * y2);
    assert x1 * y1 * (x1 * y1) * (x2 * x2 * (y2 * y2)) == w * w;
    assert d * w * (d * w) == d * d * (w * w);
  }

  lemma ScaledResidual(U: int, a: int, d: int, x: int, y: int)
    ensures U * Residual(a, d, x, y) == U * (a * (x * x) + y * y) - U - U * (d * (x * x * (y * y)))
  {
    var s, t := a * (x * x) + y * y, d * (x * x * (y * y));
    assert U * (s - (1 + t)) == U * s - U - U * t;
  }

  /** A quotient of squares that is d makes d a square. */
  lemma QuotientOfSquares(p: OddPrime, d: nat, n: int, m: int) returns (s: nat)
    requires IsResidue(p, d) && Red(p, m) != 0 && Red(p, n * n) == Red(p, d * (m * m))
    ensures IsSquareRoot(p, s, d)
  {
    hide Red, Mul, Div;
    s := Div(p, Red(p, n), Red(p, m));
    QuotientCongruence(p, s, m, n);
    CongProduct(p, s * m, n, s * m, n);
    RearrangeSquares(s, m, d);
    ZeroProduct(p, m, m);
    CongCancel(p, m * m, s * s, d);
    MulIsRed(p, s, s);
    Reduced(p, d);
  }

  lemma RearrangeSquares(s: int, m: int, d: int)
    ensures s * m * (s * m) == m * m * (s * s) && d * (m * m) == m * m * d
  {
  }

  lemma MulIsRed(p: OddPrime, a: int, b: int)
    ensures Mul(p, a, b) == Red(p, a * b)
  {
    hide Red;
  }

  lemma ResidualOfSquare(p: OddPrime, r: int, a: nat, d: int, x: int, y: int)
    requires Red(p, r * r) == Red(p, a)
    ensures Red(p, Residual(r * r, d, x, y)) == Red(p, Residual(a, d, x, y))
  {
    hide Red;
    CongProduct(p, r * r, a, x * x, x * x);
    var c := y * y - (1 + d * (x * x * (y * y)));
    CongDifference(p, r * r * (x * x), a * (x * x), -c, -c);
  }

  /** When the twist is plus or minus one, the left factor of the identity
      vanishes with any square root r of a. */
  lemma TwistForcesZero(E: Curve, A: EPoint, B: EPoint, r: int)
    requires OnCurve(E, A) && OnCurve(E, B) && Red(E.p, r * r) == Red(E.p, E.a) && InRange(E)
    requires forall s: nat :: !IsSquareRoot(E.p, s, E.d)
    requires var t := Twist(E.d, A.x, A.y, B.x, B.y); Red(E.p, t * t - 1) == 0
    ensures Red(E.p, A.x * A.y * (r * B.x + B.y)) == 0
  {
    hide Red, Mul, Twist, Residual, IsSquareRoot;
    var p, e := E.p, Twist(E.d, A.x, A.y, B.x, B.y);
    var n, m := r * A.x + e * A.y, A.x * A.y * (r * B.x + B.y);
    var u, R1, R2 := E.d * (A.x * A.x * (A.y * A.y)), Residual(r * r, E.d, A.x, A.y), Residual(r * r, E.d, B.x, B.y);
    ResidualOfSquare(p, r, E.a, E.d, A.x, A.y);
    ResidualOfSquare(p, r, E.a, E.d, B.x, B.y);
    CompletenessIdentity(r * r, E.d, r, e, A.x, A.y, B.x, B.y);
    CombinationZero(p, R1, u, R2, e * e - 1, A.y * A.y - 1);
    CongSub(p, n * n, E.d * (m * m));
    if Red(p, m) != 0 {
      var s := QuotientOfSquares(p, E.d, n, m);
    }
  }

  lemma CombinationZero(p: OddPrime, r1: int, u: int, r2: int, k: int, v: int)
    requires Red(p, r1) == 0 && Red(p, r2) == 0 && Red(p, k) == 0
    ensures Red(p, r1 - u * r2 + k * v) == 0
  {
    hide *;
    Reduced(p, 0);
    ZeroProduct(p, u, r2);
    ZeroProduct(p, k, v);
    CongDifference(p, r1, 0, u * r2, 0);
    ZeroSum(p, r1 - u * r2, k * v);
  }

  /** On a complete curve the addition rule is defined for all points. */
  lemma CompleteSummable(E: Curve, A: EPoint, B: EPoint)
    requires Complete(E) && OnCurve(E, A) && OnCurve(E, B)
    ensures Summable(E, A, B)
  {
    var r: nat :| IsSquareRoot(E.p, r, E.a);
    hide Red, Twist, OnCurve, IsSquareRoot;
    SquareRootMeaning(E.p, r, E.a);
    TwistNotUnit(E, A, B, r);
    PlusMinusOne(E.p, Twist(E.d, A.x, A.y, B.x, B.y));
  }

  lemma TwistNotUnit(E: Curve, A: EPoint, B: EPoint, r: int)
    requires OnCurve(E, A) && OnCurve(E, B) && Red(E.p, r * r) == Red(E.p, E.a) && InRange(E)
    requires forall s: nat :: !IsSquareRoot(E.p, s, E.d)
    ensures var t := Twist(E.d, A.x, A.y, B.x, B.y); Red(E.p, t * t - 1) != 0
  {
    hide *;
    var p, t := E.p, Twist(E.d, A.x, A.y, B.x, B.y);
    if Red(p, t * t - 1) == 0 {
      OppositeSquare(r);
      TwistForcesZero(E, A, B, r);
      TwistForcesZero(E, A, B, 0 - r);
      TwistFactors(p, E.d, A.x, A.y, B.x, B.y);
      ZeroProduct(p, A.x * A.y, r * B.x + B.y);
      ZeroProduct(p, A.x * A.y, (0 - r) * B.x + B.y);
      OppositeRoots(p, r, B.x, B.y);
    }
  }

  lemma OppositeSquare(r: int)
    ensures (0 - r) * (0 - r) == r * r
  {
  }

  lemma SquareRootMeaning(p: OddPrime, r: nat, a: nat)
    requires IsSquareRoot(p, r, a)
    ensures Red(p, r * r) == Red(p, a)
  {
    hide Red;
    RedOfRed(p, r * r);
  }

  lemma PlusMinusOne(p: OddPrime, t: int)
    ensures Red(p, t * t - 1) != 0 ==> Red(p, 1 + t) != 0 && Red(p, 1 - t) != 0
  {
    hide Red;
    assert t * t - 1 == (1 + t) * (t - 1);
    assert t * t - 1 == (1 - t) * (0 - 1 - t);
    ZeroProduct(p, 1 + t, t - 1);
    ZeroProduct(p, 1 - t, 0 - 1 - t);
  }

  lemma TwistFactors(p: OddPrime, d: int, x1: int, y1: int, x2: int, y2: int)
    requires var t := Twist(d, x1, y1, x2, y2); Red(p, t * t - 1) == 0
    ensures Red(p, x1 * y1) != 0 && Red(p, y2) != 0
  {
    hide Red;
    var t := Twist(d, x1, y1, x2, y2);
    Reduced(p, 0);
    Reduced(p, 1);
    CongSub(p, t * t, 1);
    ZeroProduct(p, t, t);
    assert t == x1 * y1 * (d * (x2 * y2)) && t == y2 * (d * (x1 * x2 * y1));
    ZeroProduct(p, x1 * y1, d * (x2 * y2));
    ZeroProduct(p, y2, d * (x1 * x2 * y1));
  }

  lemma OppositeRoots(p: OddPrime, r: int, x: int, y: int)
    requires Red(p, r * x + y) == 0 && Red(p, (0 - r) * x + y) == 0
    ensures Red(p, y) == 0
  {
    hide Red;
    ZeroSum(p, r * x + y, (0 - r) * x + y);
    assert r * x + y + ((0 - r) * x + y) == 2 * y;
    ZeroProduct(p, 2, y);
    Reduced(p, 2);
  }
}
