/**
 Montgomery curves b y^2 = x^3 + a x^2 + x in XZ coordinates, where only the
 x-coordinate X / Z of a point is kept.

 The first part is the affine group law, the second the program's differential
 addition and doubling, and the third shows that they yield the x-coordinates of
 the sum and the double, points at infinity included, and what becomes of
 differences without a usable x-coordinate.
 */
module Montgomery {
  import opened PrimeField

  datatype Curve = Curve(p: OddPrime, a: nat, b: nat)

  datatype XZ = XZ(X: int, Z: int)

  /** The curve is nonsingular. */
  predicate Valid(E: Curve) {
    IsResidue(E.p, E.a) && IsResidue(E.p, E.b) && E.b != 0 && Red(E.p, E.a * E.a) != Red(E.p, 4)
  }

  // ----- the affine group law

  function Cubic(a: int, x: int): int {
    x * x * x + a * x * x + x
  }

  predicate InField(E: Curve, A: Point) {
    A.Affine? ==> IsResidue(E.p, A.x) && IsResidue(E.p, A.y)
  }

  predicate OnCurve(E: Curve, A: Point) {
    InField(E, A) && (A.Affine? ==> Red(E.p, E.b * (A.y * A.y)) == Red(E.p, Cubic(E.a, A.x)))
  }

  function Negate(p: OddPrime, A: Point): (N: Point)
    ensures N.Affine? <==> A.Affine?
    ensures N.Affine? ==> N.x == A.x && IsResidue(p, N.y)
  {
    if A.Infinity? then Infinity else Affine(A.x, Sub(p, 0, A.y))
  }

  function LinePoint(E: Curve, l: nat, x1: nat, y1: nat, x2: nat): Point {
    var x3 := Sub(E.p, Mul(E.p, E.b, Mul(E.p, l, l)), Add(E.p, E.a, Add(E.p, x1, x2)));
    Affine(x3, Sub(E.p, Mul(E.p, l, Sub(E.p, x1, x3)), y1))
  }

  function TangentSlope(E: Curve, x: nat, y: nat): (l: nat)
    requires Valid(E) && IsResidue(E.p, y) && y != 0
    ensures IsResidue(E.p, l)
  {
    TangentDenominatorNonzero(E, y);
    Div(E.p, Red(E.p, TangentNumerator(E.a, x)), Red(E.p, 2 * E.b * y))
  }

  function ChordSlope(p: OddPrime, A: Point, B: Point): (l: nat)
    requires A.Affine? && B.Affine? && IsResidue(p, A.x) && IsResidue(p, B.x) && A.x != B.x
    ensures IsResidue(p, l)
  {
    SubZero(p, B.x, A.x);
    Div(p, Sub(p, B.y, A.y), Sub(p, B.x, A.x))
  }

  function Plus(E: Curve, A: Point, B: Point): (S: Point)
    requires Valid(E) && InField(E, A) && InField(E, B)
    ensures InField(E, S)
  {
    if A.Infinity? then B
    else if B.Infinity? then A
    else if A.x != B.x then LinePoint(E, ChordSlope(E.p, A, B), A.x, A.y, B.x)
    else if A.y == B.y && A.y != 0 then LinePoint(E, TangentSlope(E, A.x, A.y), A.x, A.y, A.x)
    else Infinity
  }

  lemma TangentDenominatorNonzero(E: Curve, y: nat)
    requires Valid(E) && IsResidue(E.p, y) && y != 0
    ensures Red(E.p, 2 * E.b * y) != 0
  {
    hide Red;
    Reduced(E.p, 2);
    Reduced(E.p, E.b);
    Reduced(E.p, y);
    ZeroProduct(E.p, 2 * E.b, y);
    ZeroProduct(E.p, 2, E.b);
  }

  // ----- the program's formulas

  predicate IsPair(p: OddPrime, P: XZ) {
    IsResidue(p, P.X) && IsResidue(p, P.Z)
  }

  function DiffAdd(p: OddPrime, P: XZ, Q: XZ, PminusQ: XZ): (S: XZ)
    ensures IsPair(p, S)
  {
    var PmQp := Mul(p, Sub(p, P.X, P.Z), Add(p, Q.X, Q.Z));
    var PpQm := Mul(p, Add(p, P.X, P.Z), Sub(p, Q.X, Q.Z));
    var Xpre := Add(p, PmQp, PpQm);
    var Zpre := Sub(p, PmQp, PpQm);
    XZ(Mul(p, Mul(p, Xpre, Xpre), PminusQ.Z), Mul(p, Mul(p, Zpre, Zpre), PminusQ.X))
  }

  /** (a + 2) / 4, which the program computes once per curve. */
  function APlus2Over4(E: Curve): (q: nat)
    ensures IsResidue(E.p, q) && Mul(E.p, q, Red(E.p, 4)) == Red(E.p, E.a + 2)
  {
    FourNonzero(E.p);
    Div(E.p, Red(E.p, E.a + 2), Red(E.p, 4))
  }

  lemma FourNonzero(p: OddPrime)
    ensures Red(p, 4) != 0
  {
    hide Red;
    Reduced(p, 2);
    ZeroProduct(p, 2, 2);
    assert 2 * 2 == 4;
  }

  function DoubleXZ(p: OddPrime, aplus2over4: int, P: XZ): (D: XZ)
    ensures IsPair(p, D)
  {
    var m := Sub(p, P.X, P.Z);
    var s := Add(p, P.X, P.Z);
    var m2 := Mul(p, m, m);
    var twoXZ := Add(p, Mul(p, P.X, P.Z), Mul(p, P.X, P.Z));
    var fourXZ := Add(p, twoXZ, twoXZ);
    var Zpre := Add(p, m2, Mul(p, fourXZ, aplus2over4));
    XZ(Mul(p, m2, Mul(p, s, s)), Mul(p, fourXZ, Zpre))
  }

  // ----- the formulas over the integers

  function RedXZ(p: OddPrime, P: XZ): XZ {
    XZ(Red(p, P.X), Red(p, P.Z))
  }

  function Scaled(x: int, z: int): XZ {
    XZ(x * z, z)
  }

  function DiffAddZ(P: XZ, Q: XZ, D: XZ): XZ {
    var u, v := (P.X - P.Z) * (Q.X + Q.Z), (P.X + P.Z) * (Q.X - Q.Z);
    XZ((u + v) * (u + v) * D.Z, (u - v) * (u - v) * D.X)
  }

  lemma DiffAddHom(p: OddPrime, P: XZ, Q: XZ, D: XZ)
    ensures DiffAdd(p, RedXZ(p, P), RedXZ(p, Q), RedXZ(p, D)) == RedXZ(p, DiffAddZ(P, Q, D))
  {
    hide IsResidue, Red, Add, Sub, Mul;
    Homomorphism(p);
  }

  function DoubleZ(q: int, P: XZ): XZ {
    var m, s := P.X - P.Z, P.X + P.Z;
    var twoXZ := P.X * P.Z + P.X * P.Z;
    var fourXZ := twoXZ + twoXZ;
    XZ(m * m * (s * s), fourXZ * (m * m + fourXZ * q))
  }

  lemma DoubleHom(p: OddPrime, q: int, P: XZ)
    ensures DoubleXZ(p, Red(p, q), RedXZ(p, P)) == RedXZ(p, DoubleZ(q, P))
  {
    hide IsResidue, Red, Add, Sub, Mul;
    Homomorphism(p);
  }

  lemma DiffAddScaled(x1: int, z1: int, x2: int, z2: int, D: XZ)
    ensures DiffAddZ(Scaled(x1, z1), Scaled(x2, z2), D)
         == XZ(4 * (z1 * z2 * (z1 * z2)) * ((x1 * x2 - 1) * (x1 * x2 - 1)) * D.Z,
               4 * (z1 * z2 * (z1 * z2)) * ((x1 - x2) * (x1 - x2)) * D.X)
  {
    var t := z1 * z2;
    var u := (x1 * z1 - z1) * (x2 * z2 + z2);
    var v := (x1 * z1 + z1) * (x2 * z2 - z2);
    assert u == (x1 * x2 + x1 - x2 - 1) * t;
    assert v == (x1 * x2 - x1 + x2 - 1) * t;
    assert u + v == 2 * (x1 * x2 - 1) * t;
    assert u - v == 2 * (x1 - x2) * t;
    SquareTwice(x1 * x2 - 1, t);
    SquareTwice(x1 - x2, t);
  }

  lemma SquareTwice(e: int, t: int)
    ensures 2 * e * t * (2 * e * t) == 4 * (t * t) * (e * e)
  {
  }

  lemma DoubleScaled(q: int, x: int, z: int)
    ensures DoubleZ(q, Scaled(x, z))
         == XZ((x * x - 1) * (x * x - 1) * (z * z * (z * z)), 4 * x * ((x - 1) * (x - 1) + 4 * x * q) * (z * z * (z * z)))
  {
    var t, m, s := z * z, x - 1, x + 1;
    ProductSquared(m, z);
    ProductSquared(s, z);
    assert x * z - z == m * z && x * z + z == s * z;
    assert m * s == x * x - 1;
    ProductOfScaledSquares(m, s, t);
    assert x * z * z + x * z * z + (x * z * z + x * z * z) == 4 * x * t;
    ProductOfScaled(4 * x, m * m, q, t);
  }

  lemma ProductOfScaledSquares(m: int, s: int, t: int)
    ensures m * m * t * (s * s * t) == m * s * (m * s) * (t * t)
  {
  }

  lemma ProductOfScaled(f: int, m2: int, q: int, t: int)
    ensures f * t * (m2 * t + f * t * q) == f * (m2 + f * q) * (t * t)
  {
  }

  // ----- which x-coordinate a pair stands for

  /** The pair stands for the x-coordinate of A; at infinity Z is zero and X
      is not. */
  predicate Represents(p: OddPrime, P: XZ, A: Point) {
    && IsResidue(p, P.X) && IsResidue(p, P.Z)
    && match A
       case Infinity => P.Z == 0 && P.X != 0
       case Affine(x, _) => P.Z != 0 && IsResidue(p, x) && Mul(p, x, P.Z) == P.X
  }

  lemma RepresentsScaled(p: OddPrime, P: XZ, A: Point)
    requires Represents(p, P, A) && A.Affine?
    ensures P == RedXZ(p, Scaled(A.x, P.Z))
  {
    hide Red;
    Reduced(p, P.Z);
  }

  lemma RepresentsFinite(p: OddPrime, X: int, Z: int, x: nat, y: nat)
    requires IsResidue(p, x) && Red(p, Z) != 0 && Red(p, x * Z) == Red(p, X)
    ensures Represents(p, RedXZ(p, XZ(X, Z)), Affine(x, y))
  {
    hide Red;
    Reduced(p, x);
    MulHom(p, x, Z);
  }

  // ----- doubling

  lemma TangentPolynomial(a: int, x: int)
    ensures TangentNumerator(a, x) * TangentNumerator(a, x) - (a + 2 * x) * (4 * Cubic(a, x)) == (x * x - 1) * (x * x - 1)
  {
    var n := 3 * (x * x) + 1;
    var m := 2 * (a * x);
    assert (n + m) * (n + m) == n * n + 2 * n * m + m * m;
    assert 2 * x * (4 * Cubic(a, x)) == 8 * (x * x * x * x) + 8 * (a * x * x * x) + 8 * (x * x);
    assert a * (4 * Cubic(a, x)) == 4 * (a * x * x * x) + 4 * (a * a * x * x) + 4 * (a * x);
  }

  function TangentNumerator(a: int, x: int): int {
    3 * x * x + 2 * a * x + 1
  }

  function LineX(a: int, b: int, l: int, x1: int, x2: int): int {
    b * (l * l) - (a + (x1 + x2))
  }

  /** Fourfold cubic times the x-coordinate of the tangent's third point. */
  lemma TangentX(p: OddPrime, a: int, b: int, x: int, y: int, l: int)
    requires Red(p, b) != 0 && Red(p, b * (y * y)) == Red(p, Cubic(a, x))
    requires Red(p, l * (2 * b * y)) == Red(p, TangentNumerator(a, x))
    ensures Red(p, 4 * Cubic(a, x) * LineX(a, b, l, x, x)) == Red(p, (x * x - 1) * (x * x - 1))
  {
    hide *;
    var t, n, c, x3 := 2 * b * y, TangentNumerator(a, x), Cubic(a, x), LineX(a, b, l, x, x);
    TangentScaled(a, b, l, x, y);
    CongProduct(p, l * t, n, l * t, n);
    CongProduct(p, b * (y * y), c, 4 * b, 4 * b);
    CongProduct(p, c * (4 * b), b * (y * y) * (4 * b), x3, x3);
    CongProduct(p, b, b, l * t * (l * t), n * n);
    CongProduct(p, a + 2 * x, a + 2 * x, b * (y * y) * (4 * b), c * (4 * b));
    CongDifference(p, b * (l * t * (l * t)), b * (n * n), (a + 2 * x) * (b * (y * y) * (4 * b)), (a + 2 * x) * (c * (4 * b)));
    TangentPolynomial(a, x);
    FactorOut(b, n * n, a + 2 * x, c, x3, (x * x - 1) * (x * x - 1));
    CongCancel(p, b, 4 * c * x3, (x * x - 1) * (x * x - 1));
  }

  lemma TangentScaled(a: int, b: int, l: int, x: int, y: int)
    ensures var t := 2 * b * y;
            b * (y * y) * (4 * b) * LineX(a, b, l, x, x) == b * (l * t * (l * t)) - (a + 2 * x) * (b * (y * y) * (4 * b))
  {
    var w := b * (y * y) * (4 * b);
    var t := 2 * b * y;
    assert t * t == w;
    assert w * (b * (l * l)) == b * (l * t * (l * t));
    assert w * LineX(a, b, l, x, x) == w * (b * (l * l)) - w * (a + 2 * x);
  }

  lemma FactorOut(b: int, n2: int, s: int, c: int, x3: int, r: int)
    requires n2 - s * (4 * c) == r
    ensures c * (4 * b) * x3 == b * (4 * c * x3)
    ensures b * n2 - s * (c * (4 * b)) == b * r
  {
    assert s * (c * (4 * b)) == b * (s * (4 * c));
    assert b * (n2 - s * (4 * c)) == b * n2 - b * (s * (4 * c));
  }

  lemma LinePointReducedX(E: Curve, l: nat, x1: nat, y1: nat, x2: nat)
    requires Valid(E) && IsResidue(E.p, l) && IsResidue(E.p, x1) && IsResidue(E.p, y1) && IsResidue(E.p, x2)
    ensures LinePoint(E, l, x1, y1, x2).Affine?
    ensures LinePoint(E, l, x1, y1, x2).x == Red(E.p, LineX(E.a, E.b, l, x1, x2))
  {
    LinePointHom(E, l, x1, y1, x2);
    Reduced(E.p, E.a);
    Reduced(E.p, E.b);
    Reduced(E.p, l);
    Reduced(E.p, x1);
    Reduced(E.p, y1);
    Reduced(E.p, x2);
    hide Red, Add, Sub, Mul, IsResidue;
  }

  /** The x-coordinate of the double of a point not of order two. */
  lemma DoubleX(E: Curve, A: Point)
    requires Valid(E) && OnCurve(E, A) && A.Affine? && A.y != 0
    ensures var D := Plus(E, A, A);
            && D.Affine? && IsResidue(E.p, D.x)
            && Red(E.p, 4 * Cubic(E.a, A.x) * D.x) == Red(E.p, (A.x * A.x - 1) * (A.x * A.x - 1))
            && Red(E.p, 4 * Cubic(E.a, A.x)) != 0
  {
    hide Red, Mul, Div, TangentSlope, LinePoint, Cubic, LineX;
    var p, l := E.p, TangentSlope(E, A.x, A.y);
    LinePointReducedX(E, l, A.x, A.y, A.x);
    Reduced(p, E.b);
    TangentQuotient(E, A.x, A.y);
    TangentX(p, E.a, E.b, A.x, A.y, l);
    var x3 := LineX(E.a, E.b, l, A.x, A.x);
    RedOfRed(p, x3);
    CongProduct(p, 4 * Cubic(E.a, A.x), 4 * Cubic(E.a, A.x), x3, Red(p, x3));
    CubicNonzero(E, A);
  }

  lemma TangentQuotient(E: Curve, x: nat, y: nat)
    requires Valid(E) && IsResidue(E.p, y) && y != 0
    ensures Red(E.p, TangentSlope(E, x, y) * (2 * E.b * y)) == Red(E.p, TangentNumerator(E.a, x))
  {
    hide Red, Mul;
    TangentDenominatorNonzero(E, y);
    QuotientCongruence(E.p, TangentSlope(E, x, y), 2 * E.b * y, TangentNumerator(E.a, x));
  }

  /** The cubic vanishes exactly at the points of order two. */
  lemma CubicNonzero(E: Curve, A: Point)
    requires Valid(E) && OnCurve(E, A) && A.Affine?
    ensures Red(E.p, Cubic(E.a, A.x)) == 0 <==> A.y == 0
    ensures Red(E.p, 4 * Cubic(E.a, A.x)) == 0 <==> A.y == 0
  {
    hide Red, Cubic;
    var p := E.p;
    FourNonzero(p);
    Reduced(p, E.b);
    Reduced(p, A.y);
    ZeroProduct(p, 4, Cubic(E.a, A.x));
    ZeroProduct(p, E.b, A.y * A.y);
    ZeroProduct(p, A.y, A.y);
  }

  /** x (x^2 + a x + 1) vanishes together with x^2 - 1 only on a singular curve. */
  lemma OrderTwoNotUnit(E: Curve, x: int)
    requires Valid(E) && Red(E.p, Cubic(E.a, x)) == 0
    ensures Red(E.p, (x * x - 1) * (x * x - 1)) != 0
  {
    hide Red;
    var p, q := E.p, x * x + E.a * x + 1;
    Reduced(p, 0);
    Reduced(p, 1);
    assert Cubic(E.a, x) == x * q;
    ZeroProduct(p, x, q);
    ZeroProduct(p, x * x - 1, x * x - 1);
    if Red(p, x * x - 1) == 0 {
      ZeroProduct(p, x, x);
      CongSub(p, x * x, 1);
      UnitRootSingular(p, E.a, x);
    }
  }

  lemma UnitRootSingular(p: OddPrime, a: int, x: int)
    requires Red(p, x * x) == 1 && Red(p, x * x + a * x + 1) == 0
    ensures Red(p, a * a) == Red(p, 4)
  {
    hide Red;
    Reduced(p, 1);
    CongSub(p, x * x + 1, -(a * x));
    AddHom(p, x * x, 1);
    AddHom(p, 1, 1);
    CongProduct(p, x * x + 1, -(a * x), x * x + 1, -(a * x));
    CongProduct(p, x * x + 1, 2, x * x + 1, 2);
    assert -(a * x) * -(a * x) == x * x * (a * a);
    CongProduct(p, x * x, 1, a * a, a * a);
  }

  lemma DoubleProgram(E: Curve, x: int, z: int)
    requires Valid(E)
    ensures DoubleXZ(E.p, APlus2Over4(E), RedXZ(E.p, Scaled(x, z)))
         == RedXZ(E.p, XZ((x * x - 1) * (x * x - 1) * (z * z * (z * z)), 4 * Cubic(E.a, x) * (z * z * (z * z))))
  {
    hide Red, Mul, DoubleXZ, DoubleZ, Scaled, APlus2Over4, Cubic;
    var p, q := E.p, APlus2Over4(E);
    Reduced(p, q);
    DoubleHom(p, q, Scaled(x, z));
    DoubleScaled(q, x, z);
    QuotientCongruence(p, q, 4, E.a + 2);
    CongProduct(p, q * 4, E.a + 2, x, x);
    FourfoldQuotient(E.a, q, x);
    ZeroCong(p, (x - 1) * (x - 1), 4 * x * q, (E.a + 2) * x);
    CongProduct(p, (x - 1) * (x - 1) + 4 * x * q, (x - 1) * (x - 1) + (E.a + 2) * x, 4 * x, 4 * x);
    CongProduct(p, 4 * x * ((x - 1) * (x - 1) + 4 * x * q), 4 * Cubic(E.a, x), z * z * (z * z), z * z * (z * z));
  }

  lemma FourfoldQuotient(a: int, q: int, x: int)
    ensures q * 4 * x == 4 * x * q
    ensures 4 * x * ((x - 1) * (x - 1) + 4 * x * q) == ((x - 1) * (x - 1) + 4 * x * q) * (4 * x)
    ensures ((x - 1) * (x - 1) + (a + 2) * x) * (4 * x) == 4 * Cubic(a, x)
  {
    assert (x - 1) * (x - 1) + (a + 2) * x == x * x + a * x + 1;
  }

  lemma ZeroCong(p: OddPrime, u: int, x: int, y: int)
    requires Red(p, x) == Red(p, y)
    ensures Red(p, u + x) == Red(p, u + y)
  {
    hide *;
    AddHom(p, u, x);
    AddHom(p, u, y);
  }

  /** The program's doubling gives the x-coordinate of the double, also at
      infinity and at points of order two. */
  lemma DoubleRepresents(E: Curve, A: Point, P: XZ)
    requires Valid(E) && OnCurve(E, A) && Represents(E.p, P, A)
    ensures Represents(E.p, DoubleXZ(E.p, APlus2Over4(E), P), Plus(E, A, A))
  {
    hide Red, DoubleXZ, Cubic, Plus, APlus2Over4;
    if A.Infinity? {
      DoubleInfinity(E, P);
      PlusInfinity(E, Infinity);
    } else {
      var p, z4 := E.p, P.Z * P.Z * (P.Z * P.Z);
      var c4, s := 4 * Cubic(E.a, A.x), (A.x * A.x - 1) * (A.x * A.x - 1);
      hide *;
      DoublePair(E, A, P);
      CubicNonzero(E, A);
      if A.y == 0 {
        OrderTwoNotUnit(E, A.x);
        RatioInfinite(p, s, c4, z4);
        PlusOrderTwo(E, A);
      } else {
        DoubleX(E, A);
        RatioFinite(p, s, c4, z4, Plus(E, A, A));
      }
    }
  }

  lemma DoublePair(E: Curve, A: Point, P: XZ)
    requires Valid(E) && A.Affine? && Represents(E.p, P, A)
    ensures DoubleXZ(E.p, APlus2Over4(E), P)
         == RedXZ(E.p, XZ((A.x * A.x - 1) * (A.x * A.x - 1) * (P.Z * P.Z * (P.Z * P.Z)), 4 * Cubic(E.a, A.x) * (P.Z * P.Z * (P.Z * P.Z))))
    ensures Red(E.p, P.Z * P.Z * (P.Z * P.Z)) != 0
  {
    hide Red, DoubleXZ, Cubic, APlus2Over4, RedXZ, Scaled;
    RepresentsScaled(E.p, P, A);
    DoubleProgram(E, A.x, P.Z);
    FourthPower(E.p, P.Z);
  }

  /** A pair of a numerator n and a denominator d over a common factor k. */
  lemma RatioFinite(p: OddPrime, n: int, d: int, k: int, D: Point)
    requires D.Affine? && IsResidue(p, D.x)
    requires Red(p, d) != 0 && Red(p, k) != 0 && Red(p, d * D.x) == Red(p, n)
    ensures Represents(p, RedXZ(p, XZ(n * k, d * k)), D)
  {
    hide Red, Represents, RedXZ;
    ZeroProduct(p, d, k);
    CongMul(p, d * D.x, n, k);
    assert D.x * (d * k) == d * D.x * k;
    RepresentsFinite(p, n * k, d * k, D.x, D.y);
  }

  lemma RatioInfinite(p: OddPrime, n: int, d: int, k: int)
    requires Red(p, d) == 0 && Red(p, k) != 0 && Red(p, n) != 0
    ensures Represents(p, RedXZ(p, XZ(n * k, d * k)), Infinity)
  {
    hide Red, Represents, RedXZ;
    ZeroProduct(p, d, k);
    ZeroProduct(p, n, k);
    RepresentsInfinite(p, n * k, d * k);
  }

  lemma PlusInfinity(E: Curve, A: Point)
    requires Valid(E) && InField(E, A)
    ensures Plus(E, A, Infinity) == A == Plus(E, Infinity, A)
  {
  }

  lemma PlusOrderTwo(E: Curve, A: Point)
    requires Valid(E) && InField(E, A) && A.Affine? && A.y == 0
    ensures Plus(E, A, A) == Infinity
  {
  }

  lemma RepresentsInfinite(p: OddPrime, X: int, Z: int)
    requires Red(p, X) != 0 && Red(p, Z) == 0
    ensures Represents(p, RedXZ(p, XZ(X, Z)), Infinity)
  {
    hide Red;
  }

  lemma FourthPower(p: OddPrime, z: nat)
    requires IsResidue(p, z) && z != 0
    ensures Red(p, z * z * (z * z)) != 0
  {
    hide Red;
    Reduced(p, z);
    ZeroProduct(p, z, z);
    ZeroProduct(p, z * z, z * z);
  }

  lemma DoubleInfinity(E: Curve, P: XZ)
    requires Represents(E.p, P, Infinity)
    ensures Represents(E.p, DoubleXZ(E.p, APlus2Over4(E), P), Infinity)
  {
    hide Red, Mul, DoubleXZ, APlus2Over4;
    var p, q := E.p, APlus2Over4(E);
    Reduced(p, P.X);
    Reduced(p, 0);
    Reduced(p, q);
    DoubleHom(p, q, P);
    FourthPower(p, P.X);
    assert (P.X - 0) * (P.X - 0) == P.X * P.X;
    RepresentsInfinite(p, P.X * P.X * (P.X * P.X), 0);
  }

  // ----- differential addition

  function SumPart(a: int, x1: int, x2: int): int {
    (x1 + x2) * (1 + x1 * x2) + 2 * a * (x1 * x2)
  }

  /** The x-coordinate of the chord's third point, times the squared difference. */
  lemma ChordX(p: OddPrime, a: int, b: int, x1: int, y1: int, x2: int, y2: int, l: int)
    requires Red(p, b * (y1 * y1)) == Red(p, Cubic(a, x1)) && Red(p, b * (y2 * y2)) == Red(p, Cubic(a, x2))
    requires Red(p, l * (x2 - x1)) == Red(p, y2 - y1)
    ensures Red(p, (x2 - x1) * (x2 - x1) * LineX(a, b, l, x1, x2)) == Red(p, SumPart(a, x1, x2) - 2 * (b * (y1 * y2)))
  {
    hide *;
    var d, e := x2 - x1, y2 - y1;
    var v1, v2, c1, c2 := b * (y1 * y1), b * (y2 * y2), Cubic(a, x1), Cubic(a, x2);
    var r := 2 * (b * (y1 * y2)) + (a + (x1 + x2)) * (d * d);
    CongProduct(p, l * d, e, l * d, e);
    CongProduct(p, b, b, l * d * (l * d), e * e);
    CongDifference(p, b * (l * d * (l * d)), b * (e * e), (a + (x1 + x2)) * (d * d), (a + (x1 + x2)) * (d * d));
    ZeroCong(p, v1, v2, c2);
    ZeroCong(p, c2, v1, c1);
    CongDifference(p, v1 + v2, c1 + c2, r, r);
    ChordXExpanded(a, b, x1, y1, x2, y2, l);
  }

  lemma ChordXExpanded(a: int, b: int, x1: int, y1: int, x2: int, y2: int, l: int)
    ensures var d, e := x2 - x1, y2 - y1;
            && d * d * LineX(a, b, l, x1, x2) == b * (l * d * (l * d)) - (a + (x1 + x2)) * (d * d)
            && b * (e * e) - (a + (x1 + x2)) * (d * d)
               == b * (y1 * y1) + b * (y2 * y2) - (2 * (b * (y1 * y2)) + (a + (x1 + x2)) * (d * d))
            && Cubic(a, x1) + Cubic(a, x2) - (2 * (b * (y1 * y2)) + (a + (x1 + x2)) * (d * d))
               == SumPart(a, x1, x2) - 2 * (b * (y1 * y2))
  {
    var d, e := x2 - x1, y2 - y1;
    LineXTimes(a, b, l, x1, x2, d * d);
    assert l * d * (l * d) == l * l * (d * d);
    assert e * e == y1 * y1 + y2 * y2 - 2 * (y1 * y2);
    CubicSum(a, x1, x2);
  }

  lemma LineXTimes(a: int, b: int, l: int, x1: int, x2: int, t: int)
    ensures t * LineX(a, b, l, x1, x2) == b * (l * l * t) - (a + (x1 + x2)) * t
  {
    assert t * (b * (l * l)) == b * (l * l * t);
  }

  lemma CubicSum(a: int, x1: int, x2: int)
    ensures Cubic(a, x1) + Cubic(a, x2) - (a + (x1 + x2)) * ((x2 - x1) * (x2 - x1)) == SumPart(a, x1, x2)
  {
    assert (x1 + x2) * ((x2 - x1) * (x2 - x1)) == x1 * x1 * x1 + x2 * x2 * x2 - (x1 + x2) * (x1 * x2);
    assert a * ((x2 - x1) * (x2 - x1)) == a * x1 * x1 + a * x2 * x2 - 2 * a * (x1 * x2);
  }

  /** The identity behind differential addition: with the chords to (x2, y2) and
      to (x2, -y2), x(P+Q) x(P-Q) (x2 - x1)^2 = (x1 x2 - 1)^2. */
  lemma DifferentialIdentity(p: OddPrime, a: int, b: int, x1: int, y1: int, x2: int, y2: int, l: int, m: int)
    requires Red(p, b * (y1 * y1)) == Red(p, Cubic(a, x1)) && Red(p, b * (y2 * y2)) == Red(p, Cubic(a, x2))
    requires Red(p, l * (x2 - x1)) == Red(p, y2 - y1) && Red(p, m * (x2 - x1)) == Red(p, -y2 - y1)
    requires Red(p, x2 - x1) != 0
    ensures Red(p, (x2 - x1) * (x2 - x1) * (LineX(a, b, l, x1, x2) * LineX(a, b, m, x1, x2)))
         == Red(p, (x1 * x2 - 1) * (x1 * x2 - 1))
  {
    hide *;
    var d2, S, D := (x2 - x1) * (x2 - x1), LineX(a, b, l, x1, x2), LineX(a, b, m, x1, x2);
    var T, w, c1, c2 := SumPart(a, x1, x2), b * (y1 * y2), Cubic(a, x1), Cubic(a, x2);
    SignChange(b, y1, y2);
    ChordX(p, a, b, x1, y1, x2, y2, l);
    ChordX(p, a, b, x1, y1, x2, -y2, m);
    CongProduct(p, d2 * S, T - 2 * w, d2 * D, T + 2 * w);
    CongProduct(p, b * (y1 * y1), c1, b * (y2 * y2), c2);
    CongProduct(p, 4, 4, b * (y1 * y1) * (b * (y2 * y2)), c1 * c2);
    CongDifference(p, T * T, T * T, 4 * (b * (y1 * y1) * (b * (y2 * y2))), 4 * (c1 * c2));
    DifferentialExpanded(T, w, b, y1, y2, d2, S, D);
    DifferentialPolynomial(a, x1, x2);
    ZeroProduct(p, x2 - x1, x2 - x1);
    CongCancel(p, d2, d2 * (S * D), (x1 * x2 - 1) * (x1 * x2 - 1));
  }

  lemma SignChange(b: int, y1: int, y2: int)
    ensures b * (-y2 * -y2) == b * (y2 * y2) && b * (y1 * -y2) == -(b * (y1 * y2))
  {
    assert -y2 * -y2 == y2 * y2;
    assert y1 * -y2 == -(y1 * y2);
  }

  lemma DifferentialExpanded(T: int, w: int, b: int, y1: int, y2: int, d2: int, S: int, D: int)
    requires w == b * (y1 * y2)
    ensures (T - 2 * w) * (T + 2 * w) == T * T - 4 * (b * (y1 * y1) * (b * (y2 * y2)))
    ensures d2 * S * (d2 * D) == d2 * (d2 * (S * D))
  {
    assert (T - 2 * w) * (T + 2 * w) == T * T - 4 * (w * w);
    assert w * w == b * (y1 * y1) * (b * (y2 * y2));
  }

  lemma DifferentialPolynomial(a: int, x1: int, x2: int)
    ensures SumPart(a, x1, x2) * SumPart(a, x1, x2) - 4 * (Cubic(a, x1) * Cubic(a, x2))
         == (x2 - x1) * (x2 - x1) * ((x1 * x2 - 1) * (x1 * x2 - 1))
  {
    var s, q := x1 + x2, x1 * x2;
    CubicProduct(a, x1, x2);
    SumPartSquare(a, s, q);
    assert (x2 - x1) * (x2 - x1) == s * s - 4 * q;
    assert (s * s - 4 * q) * ((q - 1) * (q - 1)) == s * s * ((1 + q) * (1 + q)) - 4 * q * (s * s) - 4 * q * ((q - 1) * (q - 1));
  }

  lemma SumPartSquare(a: int, s: int, q: int)
    ensures (s * (1 + q) + 2 * a * q) * (s * (1 + q) + 2 * a * q)
         == s * s * ((1 + q) * (1 + q)) + 4 * (a * q * (s * (1 + q))) + 4 * (a * q * (a * q))
  {
    var u, v := s * (1 + q), a * q;
    assert (u + 2 * v) * (u + 2 * v) == u * u + 4 * (v * u) + 4 * (v * v);
    assert u * u == s * s * ((1 + q) * (1 + q));
  }

  function Quadratic(a: int, x: int): int {
    x * x + 1 + a * x
  }

  lemma CubicProduct(a: int, x1: int, x2: int)
    ensures var s, q := x1 + x2, x1 * x2;
            4 * (Cubic(a, x1) * Cubic(a, x2))
            == 4 * q * (s * s) + 4 * q * ((q - 1) * (q - 1)) + 4 * (a * q * (s * (1 + q))) + 4 * (a * q * (a * q))
  {
    hide *;
    CubicFactor(a, x1);
    CubicFactor(a, x2);
    ProductOfFactors(Cubic(a, x1), x1, Quadratic(a, x1), Cubic(a, x2), x2, Quadratic(a, x2));
    QuadraticProduct(a, x1, x2);
    CubicProductCollect(a, x1 + x2, x1 * x2);
    var s, q := x1 + x2, x1 * x2;
    SameFactor(q, Quadratic(a, x1) * Quadratic(a, x2), s * s + (q - 1) * (q - 1) + a * (s * (1 + q)) + a * (a * q));
  }

  lemma SameFactor(q: int, f: int, g: int)
    requires f == g
    ensures 4 * (q * f) == 4 * (q * g)
  {
  }

  lemma CubicFactor(a: int, x: int)
    ensures Cubic(a, x) == x * Quadratic(a, x)
  {
  }

  lemma ProductOfFactors(c1: int, x1: int, f1: int, c2: int, x2: int, f2: int)
    requires c1 == x1 * f1 && c2 == x2 * f2
    ensures c1 * c2 == x1 * x2 * (f1 * f2)
  {
    assert c1 * c2 == x1 * f1 * c2;
    assert x1 * f1 * (x2 * f2) == x1 * x2 * (f1 * f2);
  }

  lemma QuadraticProduct(a: int, x1: int, x2: int)
    ensures var s, q := x1 + x2, x1 * x2;
            Quadratic(a, x1) * Quadratic(a, x2) == s * s + (q - 1) * (q - 1) + a * (s * (1 + q)) + a * (a * q)
  {
    SumProduct(x1 * x1 + 1, a * x1, x2 * x2 + 1, a * x2);
    ConstantPart(x1, x2);
    LinearPart(a, x1, x2);
    SquarePart(a, x1, x2);
  }

  lemma SquarePart(a: int, x1: int, x2: int)
    ensures a * x1 * (a * x2) == a * (a * (x1 * x2))
  {
  }

  lemma SumProduct(r1: int, v1: int, r2: int, v2: int)
    ensures (r1 + v1) * (r2 + v2) == r1 * r2 + (v1 * r2 + v2 * r1) + v1 * v2
  {
  }

  lemma ConstantPart(x1: int, x2: int)
    ensures (x1 * x1 + 1) * (x2 * x2 + 1) == (x1 + x2) * (x1 + x2) + (x1 * x2 - 1) * (x1 * x2 - 1)
  {
  }

  lemma LinearPart(a: int, x1: int, x2: int)
    ensures a * x1 * (x2 * x2 + 1) + a * x2 * (x1 * x1 + 1) == a * ((x1 + x2) * (1 + x1 * x2))
  {
  }

  lemma CubicProductCollect(a: int, s: int, q: int)
    ensures 4 * (q * (s * s + (q - 1) * (q - 1) + a * (s * (1 + q)) + a * (a * q)))
         == 4 * q * (s * s) + 4 * q * ((q - 1) * (q - 1)) + 4 * (a * q * (s * (1 + q))) + 4 * (a * q * (a * q))
  {
    var u, v := (q - 1) * (q - 1), s * (1 + q);
    assert q * (s * s + u + a * v + a * (a * q)) == q * (s * s) + q * u + a * q * v + a * q * (a * q);
  }

  lemma NegateOnCurve(E: Curve, A: Point)
    requires Valid(E) && OnCurve(E, A)
    ensures OnCurve(E, Negate(E.p, A))
    ensures A.Affine? ==> Negate(E.p, A) == Affine(A.x, Red(E.p, 0 - A.y))
  {
    if A.Affine? {
      hide Red, Cubic;
      NegatedSquare(E.p, E.b, A.y);
    }
  }

  lemma NegatedSquare(p: OddPrime, b: int, y: int)
    ensures Red(p, b * (Red(p, 0 - y) * Red(p, 0 - y))) == Red(p, b * (y * y))
  {
    hide Red;
    var m := 0 - y;
    RedOfRed(p, m);
    CongProduct(p, Red(p, m), m, Red(p, m), m);
    assert m * m == y * y;
    CongProduct(p, b, b, Red(p, m) * Red(p, m), y * y);
  }

  lemma ChordQuotient(p: OddPrime, A: Point, B: Point)
    requires A.Affine? && B.Affine? && IsResidue(p, A.x) && IsResidue(p, B.x) && A.x != B.x
    ensures Red(p, ChordSlope(p, A, B) * (B.x - A.x)) == Red(p, B.y - A.y)
  {
    hide Red, Mul;
    SubZero(p, B.x, A.x);
    QuotientCongruence(p, ChordSlope(p, A, B), B.x - A.x, B.y - A.y);
  }

  lemma PlusChord(E: Curve, A: Point, B: Point)
    requires Valid(E) && InField(E, A) && InField(E, B) && A.Affine? && B.Affine? && A.x != B.x
    ensures var S := Plus(E, A, B);
            S.Affine? && S.x == Red(E.p, LineX(E.a, E.b, ChordSlope(E.p, A, B), A.x, B.x))
  {
    hide Red, Mul, LinePoint, LineX, ChordSlope;
    LinePointReducedX(E, ChordSlope(E.p, A, B), A.x, A.y, B.x);
  }

  /** x(P+Q) x(P-Q) (x(Q) - x(P))^2 = (x(P) x(Q) - 1)^2. */
  lemma SumAndDifferenceX(E: Curve, A: Point, B: Point)
    requires Valid(E) && OnCurve(E, A) && OnCurve(E, B) && A.Affine? && B.Affine? && A.x != B.x
    ensures var S, D := Plus(E, A, B), Plus(E, A, Negate(E.p, B));
            && S.Affine? && D.Affine? && IsResidue(E.p, S.x) && IsResidue(E.p, D.x)
            && Red(E.p, (A.x - B.x) * (A.x - B.x) * (S.x * D.x)) == Red(E.p, (A.x * B.x - 1) * (A.x * B.x - 1))
    ensures Red(E.p, (A.x - B.x) * (A.x - B.x)) != 0
  {
    hide Red, Plus, ChordSlope, LineX, Cubic, Negate;
    var p, N := E.p, Negate(E.p, B);
    NegateOnCurve(E, B);
    var l, m := ChordSlope(p, A, B), ChordSlope(p, A, N);
    PlusChord(E, A, B);
    PlusChord(E, A, N);
    ChordQuotient(p, A, B);
    ChordQuotient(p, A, N);
    DistinctX(p, A.x, B.x);
    ReducedIdentity(p, E.a, E.b, A.x, A.y, B.x, B.y, l, m);
  }

  lemma ReducedIdentity(p: OddPrime, a: int, b: int, x1: int, y1: int, x2: int, y2: int, l: int, m: int)
    requires Red(p, b * (y1 * y1)) == Red(p, Cubic(a, x1)) && Red(p, b * (y2 * y2)) == Red(p, Cubic(a, x2))
    requires Red(p, l * (x2 - x1)) == Red(p, y2 - y1) && Red(p, m * (x2 - x1)) == Red(p, Red(p, 0 - y2) - y1)
    requires Red(p, x2 - x1) != 0
    ensures Red(p, (x1 - x2) * (x1 - x2) * (Red(p, LineX(a, b, l, x1, x2)) * Red(p, LineX(a, b, m, x1, x2))))
         == Red(p, (x1 * x2 - 1) * (x1 * x2 - 1))
  {
    hide *;
    var u, v, e := LineX(a, b, l, x1, x2), LineX(a, b, m, x1, x2), 0 - y2;
    RedOfRed(p, e);
    CongDifference(p, Red(p, e), e, y1, y1);
    DifferentialIdentity(p, a, b, x1, y1, x2, y2, l, m);
    RedOfRed(p, u);
    RedOfRed(p, v);
    CongProduct(p, Red(p, u), u, Red(p, v), v);
    SquaredDifference(x1, x2);
    CongProduct(p, (x1 - x2) * (x1 - x2), (x2 - x1) * (x2 - x1), Red(p, u) * Red(p, v), u * v);
  }

  lemma SquaredDifference(x1: int, x2: int)
    ensures (x1 - x2) * (x1 - x2) == (x2 - x1) * (x2 - x1)
  {
  }

  lemma DistinctX(p: OddPrime, x1: nat, x2: nat)
    requires IsResidue(p, x1) && IsResidue(p, x2) && x1 != x2
    ensures Red(p, x2 - x1) != 0 && Red(p, (x1 - x2) * (x1 - x2)) != 0
  {
    hide Red;
    CongSub(p, x2, x1);
    CongSub(p, x1, x2);
    Reduced(p, x1);
    Reduced(p, x2);
    ZeroProduct(p, x1 - x2, x1 - x2);
  }

  /** Two points with the same x-coordinate are equal or mutually inverse. */
  lemma SameX(E: Curve, A: Point, B: Point)
    requires Valid(E) && OnCurve(E, A) && OnCurve(E, B) && A.Affine? && B.Affine? && A.x == B.x
    ensures A == B || B == Negate(E.p, A)
    ensures A == B ==> Plus(E, A, Negate(E.p, B)) == Infinity
    ensures A != B ==> Plus(E, A, B) == Infinity && Negate(E.p, B) == A && A.y != 0
  {
    hide Red, Cubic;
    var p := E.p;
    Reduced(p, E.b);
    Reduced(p, A.y);
    Reduced(p, B.y);
    CongCancel(p, E.b, A.y * A.y, B.y * B.y);
    CongSub(p, A.y * A.y, B.y * B.y);
    assert A.y * A.y - B.y * B.y == (A.y - B.y) * (A.y + B.y);
    ZeroProduct(p, A.y - B.y, A.y + B.y);
    CongSub(p, A.y, B.y);
    NegatedY(p, A.y, B.y);
    NegatedY(p, B.y, A.y);
  }

  lemma NegatedY(p: OddPrime, y: nat, z: nat)
    requires IsResidue(p, y) && IsResidue(p, z)
    ensures Red(p, y + z) == 0 <==> z == Sub(p, 0, y)
    ensures Red(p, y + z) == 0 ==> (y == z <==> y == 0)
    ensures y == Sub(p, 0, y) <==> y == 0
  {
    hide Red;
    CongSub(p, z, 0 - y);
    Reduced(p, z);
    Reduced(p, 0);
    CongSub(p, y, 0 - y);
    Reduced(p, y);
    if y != 0 {
      TwiceNonzero(p, y);
    }
  }

  lemma TwiceNonzero(p: OddPrime, y: nat)
    requires IsResidue(p, y) && y != 0
    ensures Red(p, y + y) != 0
  {
    hide Red;
    assert y + y == 2 * y;
    ZeroProduct(p, 2, y);
    Reduced(p, 2);
    Reduced(p, y);
  }

  // ----- the program's differential addition

  lemma DiffAddPair(p: OddPrime, A: Point, B: Point, D: Point, P: XZ, Q: XZ, R: XZ)
    requires Represents(p, P, A) && Represents(p, Q, B) && Represents(p, R, D)
    requires A.Affine? && B.Affine? && D.Affine?
    ensures var k := 4 * (P.Z * Q.Z * (P.Z * Q.Z)) * R.Z;
            && DiffAdd(p, P, Q, R)
               == RedXZ(p, XZ((A.x * B.x - 1) * (A.x * B.x - 1) * k, (A.x - B.x) * (A.x - B.x) * D.x * k))
            && Red(p, k) != 0
  {
    hide Red, DiffAdd, DiffAddZ, RedXZ, Scaled;
    RepresentsScaled(p, P, A);
    RepresentsScaled(p, Q, B);
    RepresentsScaled(p, R, D);
    DiffAddHom(p, Scaled(A.x, P.Z), Scaled(B.x, Q.Z), Scaled(D.x, R.Z));
    DiffAddScaled(A.x, P.Z, B.x, Q.Z, Scaled(D.x, R.Z));
    ScaledParts(D.x, R.Z);
    var e := 4 * (P.Z * Q.Z * (P.Z * Q.Z));
    MoveFactor(e, (A.x * B.x - 1) * (A.x * B.x - 1), 1, R.Z);
    MoveFactor(e, (A.x - B.x) * (A.x - B.x), D.x, R.Z);
    FactorNonzero(p, P.Z, Q.Z, R.Z);
  }

  lemma ScaledParts(x: int, z: int)
    ensures Scaled(x, z).X == x * z && Scaled(x, z).Z == z
  {
  }

  lemma MoveFactor(e: int, s: int, x: int, z: int)
    ensures e * s * z == s * (e * z) && e * s * (x * z) == s * x * (e * z)
  {
  }

  lemma FactorNonzero(p: OddPrime, z1: nat, z2: nat, z3: nat)
    requires IsResidue(p, z1) && IsResidue(p, z2) && IsResidue(p, z3) && z1 != 0 && z2 != 0 && z3 != 0
    ensures Red(p, 4 * (z1 * z2 * (z1 * z2)) * z3) != 0
  {
    hide Red;
    Reduced(p, z1);
    Reduced(p, z2);
    Reduced(p, z3);
    FourNonzero(p);
    ZeroProduct(p, 4 * (z1 * z2 * (z1 * z2)), z3);
    ZeroProduct(p, 4, z1 * z2 * (z1 * z2));
    ZeroProduct(p, z1 * z2, z1 * z2);
    ZeroProduct(p, z1, z2);
  }

  /** Adding a point at infinity: the difference is the other point up to sign. */
  lemma DiffAddInfinity(p: OddPrime, A: Point, D: Point, O: XZ, P: XZ, R: XZ)
    requires Represents(p, O, Infinity) && Represents(p, P, A) && Represents(p, R, D)
    requires A.Affine? && D.Affine? && A.x == D.x && D.x != 0
    ensures Represents(p, DiffAdd(p, O, P, R), A) && Represents(p, DiffAdd(p, P, O, R), A)
  {
    hide Red, DiffAdd, DiffAddZ, RedXZ, Scaled, Represents;
    InfinityPair(p, O);
    RepresentsScaled(p, P, A);
    RepresentsScaled(p, R, D);
    var x, I, S, T := A.x, XZ(O.X, 0), Scaled(A.x, P.Z), Scaled(D.x, R.Z);
    DiffAddHom(p, I, S, T);
    DiffAddHom(p, S, I, T);
    InfinityZ(O.X, x, P.Z, R.Z);
    ReducedPair(p, P, A);
    ReducedPair(p, R, D);
    FactorNonzero(p, O.X, P.Z, R.Z);
    Reduced(p, x);
    RatioFinite(p, x * x, x, 4 * (O.X * P.Z * (O.X * P.Z)) * R.Z, A);
  }

  lemma ReducedPair(p: OddPrime, P: XZ, A: Point)
    requires Represents(p, P, A) && A.Affine?
    ensures IsResidue(p, P.Z) && P.Z != 0 && IsResidue(p, A.x)
  {
  }

  lemma InfinityPair(p: OddPrime, O: XZ)
    requires Represents(p, O, Infinity)
    ensures O == RedXZ(p, XZ(O.X, 0)) && IsResidue(p, O.X) && O.X != 0
  {
    hide Red;
    Reduced(p, O.X);
    Reduced(p, 0);
  }

  lemma InfinityZ(X: int, x: int, z: int, zd: int)
    ensures var k := 4 * (X * z * (X * z)) * zd;
            && DiffAddZ(XZ(X, 0), Scaled(x, z), Scaled(x, zd)) == XZ(x * x * k, x * k)
            && DiffAddZ(Scaled(x, z), XZ(X, 0), Scaled(x, zd)) == XZ(x * x * k, x * k)
  {
    var t, I, S := X * z, XZ(X, 0), Scaled(x, z);
    DiffAddParts(I, S, Scaled(x, zd));
    DiffAddParts(S, I, Scaled(x, zd));
    assert X * (x * z) - 0 * z == x * t && X * z - 0 * (x * z) == t;
    assert x * z * X - z * 0 == x * t && x * z * 0 - z * X == -t;
    FourfoldSquare(x, t, x * t);
    assert -t * -t == t * t;
    MoveFactor(4 * (t * t), x * x, 1, zd);
    MoveFactor(4 * (t * t), 1, x, zd);
  }

  lemma FourfoldSquare(x: int, t: int, e: int)
    requires e == x * t
    ensures 4 * (e * e) == 4 * (t * t) * (x * x)
  {
  }

  /** The half with a usable difference. */
  lemma DiffAddRepresents(E: Curve, A: Point, B: Point, P: XZ, Q: XZ, R: XZ)
    requires Valid(E) && OnCurve(E, A) && OnCurve(E, B)
    requires Represents(E.p, P, A) && Represents(E.p, Q, B)
    requires var D := Plus(E, A, Negate(E.p, B));
             D.Affine? && D.x != 0 && Represents(E.p, R, D)
    ensures Represents(E.p, DiffAdd(E.p, P, Q, R), Plus(E, A, B))
  {
    hide Red, Mul, DiffAdd, Plus, Represents, RedXZ, LinePoint, Cubic;
    var p, N := E.p, Negate(E.p, B);
    var D := Plus(E, A, N);
    if A.Infinity? {
      PlusInfinity(E, N);
      PlusInfinity(E, B);
      DiffAddInfinity(p, B, D, P, Q, R);
    } else if B.Infinity? {
      PlusInfinity(E, A);
      DiffAddInfinity(p, A, D, Q, P, R);
    } else {
      DiffAddPair(p, A, B, D, P, Q, R);
      var k := 4 * (P.Z * Q.Z * (P.Z * Q.Z)) * R.Z;
      var n, d := (A.x * B.x - 1) * (A.x * B.x - 1), (A.x - B.x) * (A.x - B.x) * D.x;
      if A.x != B.x {
        SumAndDifferenceX(E, A, B);
        NonzeroDifference(p, A, B, D, Plus(E, A, B));
        RatioFinite(p, n, d, k, Plus(E, A, B));
      } else {
        SameX(E, A, B);
        DoubleX(E, A);
        VerticalDifference(p, A.x, Cubic(E.a, A.x), D.x);
        RatioInfinite(p, n, d, k);
      }
    }
  }

  // ----- a difference with x = 0 or at infinity

  lemma DiffAddParts(P: XZ, Q: XZ, D: XZ)
    ensures var e, f := P.X * Q.X - P.Z * Q.Z, P.X * Q.Z - P.Z * Q.X;
            DiffAddZ(P, Q, D) == XZ(4 * (e * e) * D.Z, 4 * (f * f) * D.X)
  {
    var e, f := P.X * Q.X - P.Z * Q.Z, P.X * Q.Z - P.Z * Q.X;
    var u, v := (P.X - P.Z) * (Q.X + Q.Z), (P.X + P.Z) * (Q.X - Q.Z);
    assert u + v == 2 * e && u - v == 2 * f;
    TwiceSquared(u + v, e);
    TwiceSquared(u - v, f);
  }

  lemma TwiceSquared(w: int, e: int)
    requires w == 2 * e
    ensures w * w == 4 * (e * e)
  {
  }

  /** Pairs of which nothing is left: both factors are zero or meet a zero of the
      difference. */
  lemma DiffAddVanishes(p: OddPrime, P: XZ, Q: XZ, R: XZ)
    requires IsPair(p, P) && IsPair(p, Q) && IsPair(p, R)
    requires R.Z == 0 || P.X * Q.X == P.Z * Q.Z
    requires R.X == 0 || P.X * Q.Z == P.Z * Q.X
    ensures DiffAdd(p, P, Q, R) == XZ(0, 0)
  {
    hide Red, DiffAdd, DiffAddZ, RedXZ;
    ReducedSelf(p, P);
    ReducedSelf(p, Q);
    ReducedSelf(p, R);
    DiffAddHom(p, P, Q, R);
    DiffAddParts(P, Q, R);
    ZeroFactor(P.X * Q.X - P.Z * Q.Z, R.Z);
    ZeroFactor(P.X * Q.Z - P.Z * Q.X, R.X);
    ReducedSelf(p, XZ(0, 0));
  }

  lemma ZeroFactor(e: int, z: int)
    requires e == 0 || z == 0
    ensures 4 * (e * e) * z == 0
  {
  }

  lemma ReducedSelf(p: OddPrime, P: XZ)
    requires IsPair(p, P)
    ensures RedXZ(p, P) == P
  {
    hide Red;
    Reduced(p, P.X);
    Reduced(p, P.Z);
  }

  /** The x-coordinates of two points that differ by one with x = 0 are inverse
      to each other. */
  lemma OrderTwoApart(E: Curve, A: Point, B: Point)
    requires Valid(E) && OnCurve(E, A) && OnCurve(E, B) && A.Affine? && B.Affine?
    requires var D := Plus(E, A, Negate(E.p, B)); D.Affine? && D.x == 0
    ensures Red(E.p, (A.x * B.x - 1) * (A.x * B.x - 1)) == 0
  {
    hide Red, Plus, Negate, Cubic;
    var p := E.p;
    Reduced(p, 0);
    if A.x != B.x {
      SumAndDifferenceX(E, A, B);
      assert (A.x - B.x) * (A.x - B.x) * (Plus(E, A, B).x * 0) == 0;
    } else {
      SameX(E, A, B);
      DoubleX(E, A);
      assert 4 * Cubic(E.a, A.x) * 0 == 0;
    }
  }

  /** Differences without a usable x-coordinate give (0 : 0). */
  lemma DiffAddDegenerate(E: Curve, A: Point, B: Point, P: XZ, Q: XZ, R: XZ)
    requires Valid(E) && OnCurve(E, A) && OnCurve(E, B)
    requires Represents(E.p, P, A) && Represents(E.p, Q, B)
    requires var D := Plus(E, A, Negate(E.p, B));
             Represents(E.p, R, D) && (D.Infinity? || D.x == 0)
    ensures DiffAdd(E.p, P, Q, R) == XZ(0, 0)
  {
    hide Red, Mul, DiffAdd, Plus, LinePoint, Cubic, RedXZ;
    var p, N := E.p, Negate(E.p, B);
    var D := Plus(E, A, N);
    if D.Affine? {
      MulZero(p, R.Z);
    }
    if A.Affine? && B.Affine? {
      DifferenceInfinite(E, A, B);
      if D.Affine? {
        OrderTwoApart(E, A, B);
      }
      DiffAddFinite(p, A, B, P, Q, R);
    } else {
      PlusInfinity(E, N);
      PlusInfinity(E, A);
      if A.Affine? || B.Affine? {
        MulZero(p, P.Z);
        MulZero(p, Q.Z);
      }
      DiffAddVanishes(p, P, Q, R);
    }
  }

  lemma DifferenceInfinite(E: Curve, A: Point, B: Point)
    requires Valid(E) && InField(E, A) && InField(E, B) && A.Affine? && B.Affine?
    ensures Plus(E, A, Negate(E.p, B)) == Infinity ==> A.x == B.x
  {
    hide Red;
  }

  lemma DiffAddFinite(p: OddPrime, A: Point, B: Point, P: XZ, Q: XZ, R: XZ)
    requires Represents(p, P, A) && Represents(p, Q, B) && A.Affine? && B.Affine? && IsPair(p, R)
    requires R.Z == 0 || Red(p, (A.x * B.x - 1) * (A.x * B.x - 1)) == 0
    requires R.X == 0 || A.x == B.x
    ensures DiffAdd(p, P, Q, R) == XZ(0, 0)
  {
    hide Red, DiffAdd, DiffAddZ, Scaled, Represents, RedXZ;
    RepresentsScaled(p, P, A);
    RepresentsScaled(p, Q, B);
    ReducedSelf(p, R);
    DiffAddHom(p, Scaled(A.x, P.Z), Scaled(B.x, Q.Z), R);
    DiffAddScaled(A.x, P.Z, B.x, Q.Z, R);
    var e := 4 * (P.Z * Q.Z * (P.Z * Q.Z));
    var n, d := (A.x * B.x - 1) * (A.x * B.x - 1), (A.x - B.x) * (A.x - B.x);
    RedZero(p);
    ProductVanishes(p, e, n, R.Z);
    ProductVanishes(p, e, d, R.X);
    RedPair(p, e * n * R.Z, e * d * R.X);
  }

  lemma RedZero(p: OddPrime)
    ensures Red(p, 0) == 0
  {
  }

  lemma RedPair(p: OddPrime, X: int, Z: int)
    requires Red(p, X) == 0 && Red(p, Z) == 0
    ensures RedXZ(p, XZ(X, Z)) == XZ(0, 0)
  {
    hide Red;
  }

  lemma ProductVanishes(p: OddPrime, e: int, n: int, z: int)
    requires z == 0 || Red(p, n) == 0
    ensures Red(p, e * n * z) == 0
  {
    hide Red;
    if z == 0 {
      RedZero(p);
      assert e * n * z == 0;
    } else {
      ZeroProduct(p, e, n);
      ZeroProduct(p, e * n, z);
    }
  }

  /** For all points, equal, inverse or infinite: given the difference,
      differential addition represents the sum exactly when the difference is
      finite with a nonzero x-coordinate, and is (0 : 0), which stands for no
      point, otherwise. */
  lemma DiffAddExactly(E: Curve, A: Point, B: Point, P: XZ, Q: XZ, R: XZ)
    requires Valid(E) && OnCurve(E, A) && OnCurve(E, B)
    requires Represents(E.p, P, A) && Represents(E.p, Q, B)
    requires Represents(E.p, R, Plus(E, A, Negate(E.p, B)))
    ensures var D := Plus(E, A, Negate(E.p, B));
            && (Represents(E.p, DiffAdd(E.p, P, Q, R), Plus(E, A, B)) <==> D.Affine? && D.x != 0)
            && (D.Infinity? || D.x == 0 ==> DiffAdd(E.p, P, Q, R) == XZ(0, 0))
  {
    hide Red, DiffAdd, Plus, Mul, Cubic;
    var D := Plus(E, A, Negate(E.p, B));
    if D.Infinity? || D.x == 0 {
      DiffAddDegenerate(E, A, B, P, Q, R);
    } else {
      DiffAddRepresents(E, A, B, P, Q, R);
    }
  }

  lemma NonzeroDifference(p: OddPrime, A: Point, B: Point, D: Point, S: Point)
    requires A.Affine? && B.Affine? && D.Affine? && S.Affine? && D.x != 0 && IsResidue(p, D.x)
    requires Red(p, (A.x - B.x) * (A.x - B.x)) != 0
    ensures Red(p, (A.x - B.x) * (A.x - B.x) * D.x) != 0
    ensures (A.x - B.x) * (A.x - B.x) * D.x * S.x == (A.x - B.x) * (A.x - B.x) * (S.x * D.x)
  {
    hide Red;
    var e := (A.x - B.x) * (A.x - B.x);
    ZeroProduct(p, e, D.x);
    Reduced(p, D.x);
    assert e * D.x * S.x == e * (S.x * D.x);
  }

  lemma VerticalDifference(p: OddPrime, x: int, c: int, xd: nat)
    requires IsResidue(p, xd) && xd != 0 && Red(p, 4 * c) != 0
    requires Red(p, 4 * c * xd) == Red(p, (x * x - 1) * (x * x - 1))
    ensures Red(p, (x - x) * (x - x) * xd) == 0 && Red(p, (x * x - 1) * (x * x - 1)) != 0
  {
    hide Red;
    Reduced(p, 0);
    Reduced(p, xd);
    ZeroProduct(p, 4 * c, xd);
    assert (x - x) * (x - x) * xd == 0;
  }

  // ----- the group law stays on the curve

  function Residual(a: int, b: int, x: int, y: int): int {
    Cubic(a, x) - b * (y * y)
  }

  /** Along the line of slope l through (x, y), the residual changes by the step
      u times a quadratic in u. */
  function StepQuadratic(a: int, b: int, l: int, x: int, y: int, u: int): int {
    u * u + (3 * x + a - b * (l * l)) * u + (TangentNumerator(a, x) - l * (2 * b * y))
  }

  lemma ResidualAlongLine(a: int, b: int, l: int, x: int, y: int, u: int)
    ensures Residual(a, b, x + u, y + l * u) == Residual(a, b, x, y) + u * StepQuadratic(a, b, l, x, y, u)
  {
    CubicStep(a, x, u);
    SquareStep(b, l, y, u);
    QuadraticTimes(u, 3 * x + a, b * (l * l), TangentNumerator(a, x), l * (2 * b * y));
  }

  lemma CubicStep(a: int, x: int, u: int)
    ensures Cubic(a, x + u) == Cubic(a, x) + u * (u * u) + (3 * x + a) * (u * u) + TangentNumerator(a, x) * u
  {
    CubeStep(x, u);
    assert a * (x + u) * (x + u) == a * x * x + 2 * a * x * u + a * (u * u);
    TangentTimes(a, x, u);
  }

  lemma CubeStep(x: int, u: int)
    ensures (x + u) * (x + u) * (x + u) == x * x * x + 3 * x * x * u + 3 * x * (u * u) + u * (u * u)
  {
  }

  lemma TangentTimes(a: int, x: int, u: int)
    ensures TangentNumerator(a, x) * u == 3 * x * x * u + 2 * a * x * u + u
    ensures (3 * x + a) * (u * u) == 3 * x * (u * u) + a * (u * u)
  {
  }

  lemma SquareStep(b: int, l: int, y: int, u: int)
    ensures b * ((y + l * u) * (y + l * u)) == b * (y * y) + l * (2 * b * y) * u + b * (l * l) * (u * u)
  {
    var v := l * u;
    SumSquare(b, y, v);
    CrossTerm(b, l, y, u);
    SquareTerm(b, l, u);
  }

  lemma SumSquare(b: int, y: int, v: int)
    ensures b * ((y + v) * (y + v)) == b * (y * y) + 2 * (b * y) * v + b * (v * v)
  {
    assert (y + v) * (y + v) == y * y + 2 * (y * v) + v * v;
  }

  lemma CrossTerm(b: int, l: int, y: int, u: int)
    ensures 2 * (b * y) * (l * u) == l * (2 * b * y) * u
  {
    var c := b * y;
    assert 2 * b * y == 2 * c;
    assert 2 * c * (l * u) == l * (2 * c) * u;
  }

  lemma SquareTerm(b: int, l: int, u: int)
    ensures b * (l * u * (l * u)) == b * (l * l) * (u * u)
  {
    ProductSquared(l, u);
  }

  lemma QuadraticTimes(u: int, s: int, t: int, n: int, m: int)
    ensures u * (u * u + (s - t) * u + (n - m)) == u * (u * u) + s * (u * u) - t * (u * u) + n * u - m * u
  {
  }

  lemma QuadraticRoots(a: int, b: int, l: int, x: int, y: int, d: int)
    ensures StepQuadratic(a, b, l, x, y, d) == StepQuadratic(a, b, l, x, y, LineX(a, b, l, x, x + d) - x)
  {
    RootPair(3 * x + a - b * (l * l), d, LineX(a, b, l, x, x + d) - x);
  }

  lemma RootPair(s: int, d: int, u: int)
    requires u == -s - d
    ensures u * u + s * u == d * d + s * d
  {
  }

  lemma LineStaysOnCurve(p: OddPrime, a: int, b: int, l: int, x: int, y: int, d: int)
    requires Red(p, Residual(a, b, x, y)) == 0 && Red(p, StepQuadratic(a, b, l, x, y, d)) == 0
    ensures var x3 := LineX(a, b, l, x, x + d);
            Red(p, Residual(a, b, x3, l * (x - x3) - y)) == 0
  {
    hide *;
    var u := LineX(a, b, l, x, x + d) - x;
    QuadraticRoots(a, b, l, x, y, d);
    ResidualAlongLine(a, b, l, x, y, u);
    ZeroProduct(p, u, StepQuadratic(a, b, l, x, y, u));
    ZeroSum(p, Residual(a, b, x, y), u * StepQuadratic(a, b, l, x, y, u));
    Reflect(a, b, l, x, y, u);
  }

  lemma Reflect(a: int, b: int, l: int, x: int, y: int, u: int)
    ensures Residual(a, b, x + u, l * (x - (x + u)) - y) == Residual(a, b, x + u, y + l * u)
  {
    var v := y + l * u;
    assert l * (x - (x + u)) - y == -v;
    assert (-v) * (-v) == v * v;
  }

  function FieldResidual(p: OddPrime, a: int, b: int, x: int, y: int): nat {
    Sub(p, Add(p, Add(p, Mul(p, Mul(p, x, x), x), Mul(p, Mul(p, a, x), x)), x), Mul(p, b, Mul(p, y, y)))
  }

  lemma FieldResidualHom(p: OddPrime, a: int, b: int, x: int, y: int)
    ensures FieldResidual(p, Red(p, a), Red(p, b), Red(p, x), Red(p, y)) == Red(p, Residual(a, b, x, y))
  {
    hide IsResidue, Red, Add, Sub, Mul;
    Homomorphism(p);
  }

  lemma ResidualOfRed(p: OddPrime, a: int, b: int, x: int, y: int)
    ensures Red(p, Residual(a, b, Red(p, x), Red(p, y))) == Red(p, Residual(a, b, x, y))
  {
    hide *;
    FieldResidualHom(p, a, b, x, y);
    FieldResidualHom(p, a, b, Red(p, x), Red(p, y));
    RedOfRed(p, x);
    RedOfRed(p, y);
  }

  lemma OnCurveResidual(E: Curve, A: Point)
    requires Valid(E) && A.Affine?
    ensures OnCurve(E, A) <==> InField(E, A) && Red(E.p, Residual(E.a, E.b, A.x, A.y)) == 0
  {
    hide Red, Cubic;
    CongSub(E.p, Cubic(E.a, A.x), E.b * (A.y * A.y));
  }

  /** The points of the curve are closed under the group law. */
  lemma PlusOnCurve(E: Curve, A: Point, B: Point)
    requires Valid(E) && OnCurve(E, A) && OnCurve(E, B)
    ensures OnCurve(E, Plus(E, A, B))
  {
    hide Red, Mul, LinePoint, ChordSlope, TangentSlope, Cubic, Residual, StepQuadratic, LineX;
    if A.Affine? && B.Affine? && A.x != B.x {
      ChordOnQuadratic(E, A, B);
      LinePointOnCurve(E, ChordSlope(E.p, A, B), A, B.x);
    } else if A.Affine? && B.Affine? && A.y == B.y && A.y != 0 {
      TangentOnQuadratic(E, A);
      LinePointOnCurve(E, TangentSlope(E, A.x, A.y), A, A.x);
    }
  }

  lemma ChordOnQuadratic(E: Curve, A: Point, B: Point)
    requires Valid(E) && OnCurve(E, A) && OnCurve(E, B) && A.Affine? && B.Affine? && A.x != B.x
    ensures Red(E.p, StepQuadratic(E.a, E.b, ChordSlope(E.p, A, B), A.x, A.y, B.x - A.x)) == 0
  {
    hide Red, Cubic, Residual, StepQuadratic, ChordSlope;
    var p, l, d := E.p, ChordSlope(E.p, A, B), B.x - A.x;
    OnCurveResidual(E, A);
    OnCurveResidual(E, B);
    ChordQuotient(p, A, B);
    OnLine(p, l * d, A.y, B.y);
    Reduced(p, B.x);
    ResidualOfRed(p, E.a, E.b, B.x, A.y + l * d);
    ResidualAlongLine(E.a, E.b, l, A.x, A.y, d);
    ZeroSum(p, Residual(E.a, E.b, A.x, A.y), d * StepQuadratic(E.a, E.b, l, A.x, A.y, d));
    ZeroProduct(p, d, StepQuadratic(E.a, E.b, l, A.x, A.y, d));
    DistinctX(p, A.x, B.x);
  }

  lemma OnLine(p: OddPrime, e: int, y1: nat, y2: nat)
    requires IsResidue(p, y2) && Red(p, e) == Red(p, y2 - y1)
    ensures Red(p, y1 + e) == y2
  {
    hide Red;
    CongSub(p, e, y2 - y1);
    CongSub(p, y1 + e, y2);
    Reduced(p, y2);
  }

  lemma TangentOnQuadratic(E: Curve, A: Point)
    requires Valid(E) && OnCurve(E, A) && A.Affine? && A.y != 0
    ensures Red(E.p, StepQuadratic(E.a, E.b, TangentSlope(E, A.x, A.y), A.x, A.y, 0)) == 0
  {
    hide Red, Cubic, TangentSlope, StepQuadratic, TangentNumerator;
    var l, n := TangentSlope(E, A.x, A.y), TangentNumerator(E.a, A.x);
    TangentQuotient(E, A.x, A.y);
    CongSub(E.p, n, l * (2 * E.b * A.y));
    AtZero(E.a, E.b, l, A.x, A.y);
  }

  lemma AtZero(a: int, b: int, l: int, x: int, y: int)
    ensures StepQuadratic(a, b, l, x, y, 0) == TangentNumerator(a, x) - l * (2 * b * y)
  {
  }

  lemma LinePointHom(E: Curve, l: int, x1: int, y1: int, x2: int)
    ensures var x3 := E.b * (l * l) - (E.a + (x1 + x2));
            LinePoint(Curve(E.p, Red(E.p, E.a), Red(E.p, E.b)), Red(E.p, l), Red(E.p, x1), Red(E.p, y1), Red(E.p, x2))
            == Affine(Red(E.p, x3), Red(E.p, l * (x1 - x3) - y1))
  {
    hide IsResidue, Red, Add, Sub, Mul;
    Homomorphism(E.p);
  }

  lemma LinePointOnCurve(E: Curve, l: nat, A: Point, x2: nat)
    requires Valid(E) && OnCurve(E, A) && A.Affine? && IsResidue(E.p, l) && IsResidue(E.p, x2)
    requires Red(E.p, StepQuadratic(E.a, E.b, l, A.x, A.y, x2 - A.x)) == 0
    ensures OnCurve(E, LinePoint(E, l, A.x, A.y, x2))
  {
    hide Red, Cubic, Residual, StepQuadratic, LinePoint;
    var p, x3 := E.p, LineX(E.a, E.b, l, A.x, x2);
    Reduced(p, E.a);
    Reduced(p, E.b);
    Reduced(p, l);
    Reduced(p, A.x);
    Reduced(p, A.y);
    Reduced(p, x2);
    LinePointHom(E, l, A.x, A.y, x2);
    OnCurveResidual(E, A);
    LineStaysOnCurve(p, E.a, E.b, l, A.x, A.y, x2 - A.x);
    ResidualOfRed(p, E.a, E.b, x3, l * (A.x - x3) - A.y);
    OnCurveResidual(E, LinePoint(E, l, A.x, A.y, x2));
  }

  /** A point and its negation cancel. */
  lemma PlusNegate(E: Curve, A: Point)
    requires Valid(E) && OnCurve(E, A)
    ensures Plus(E, A, Negate(E.p, A)) == Infinity == Plus(E, Negate(E.p, A), A)
  {
    hide Red;
    if A.Affine? {
      NegatedY(E.p, A.y, A.y);
    }
  }
}
