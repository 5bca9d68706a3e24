/**
 The program's extended-coordinate formulas for twisted Edwards curves, and the
 proof that they compute the affine addition rule.
 */
module EdwardsExtended {
  import opened PrimeField
  import opened Edwards

  predicate Canonical(p: OddPrime, P: Extended) {
    IsResidue(p, P.X) && IsResidue(p, P.Y) && IsResidue(p, P.Z) && IsResidue(p, P.T)
  }

  // ----- the program's formulas

  function AddPoints(E: Curve, P: Extended, Q: Extended): (S: Extended)
    ensures Canonical(E.p, S)
  {
    var p := E.p;
    var PxQx, PyQy := Mul(p, P.X, Q.X), Mul(p, P.Y, Q.Y);
    var dPtQt, PzQz := Mul(p, E.d, Mul(p, P.T, Q.T)), Mul(p, P.Z, Q.Z);
    var sumprod := Mul(p, Add(p, P.X, P.Y), Add(p, Q.X, Q.Y));
    var e := Sub(p, sumprod, Add(p, PxQx, PyQy));
    var f := Sub(p, PzQz, dPtQt);
    var g := Add(p, PzQz, dPtQt);
    var h := Sub(p, PyQy, Mul(p, E.a, PxQx));
    Extended(Mul(p, e, f), Mul(p, g, h), Mul(p, f, g), Mul(p, h, e))
  }

  predicate ProjectiveEq(p: OddPrime, An: int, Ad: int, Bn: int, Bd: int) {
    Mul(p, An, Bd) == Mul(p, Bn, Ad)
  }

  predicate PointsEq(p: OddPrime, P: Extended, Q: Extended) {
    ProjectiveEq(p, P.X, P.Z, Q.X, Q.Z) && ProjectiveEq(p, P.Y, P.Z, Q.Y, Q.Z)
  }

  // ----- what the four coordinates must satisfy

  function LeftSide(a: int, P: Extended): int { a * (P.X * P.X) + P.Y * P.Y }

  function RightSide(d: int, P: Extended): int { P.Z * P.Z + d * (P.T * P.T) }

  /** X Y = Z T and a X^2 + Y^2 = Z^2 + d T^2. */
  predicate OnExtended(p: OddPrime, a: int, d: int, P: Extended) {
    && Red(p, P.X * P.Y) == Red(p, P.Z * P.T)
    && Red(p, LeftSide(a, P)) == Red(p, RightSide(d, P))
  }

  predicate ValidPoint(E: Curve, P: Extended) {
    Canonical(E.p, P) && P.Z != 0 && OnExtended(E.p, E.a, E.d, P)
  }

  function Value(p: OddPrime, P: Extended): (A: EPoint)
    requires Canonical(p, P) && P.Z != 0
    ensures IsResidue(p, A.x) && IsResidue(p, A.y)
  {
    EPoint(Div(p, P.X, P.Z), Div(p, P.Y, P.Z))
  }

  // ----- the formulas over the integers

  function RedPoint(p: OddPrime, P: Extended): (R: Extended)
    ensures Canonical(p, R)
  {
    Extended(Red(p, P.X), Red(p, P.Y), Red(p, P.Z), Red(p, P.T))
  }

  function AddZ(a: int, d: int, P: Extended, Q: Extended): Extended {
    var e := (P.X + P.Y) * (Q.X + Q.Y) - (P.X * Q.X + P.Y * Q.Y);
    var f := P.Z * Q.Z - d * (P.T * Q.T);
    var g := P.Z * Q.Z + d * (P.T * Q.T);
    var h := P.Y * Q.Y - a * (P.X * Q.X);
    Extended(e * f, g * h, f * g, h * e)
  }

  lemma AddHom(E: Curve, a: int, d: int, P: Extended, Q: Extended)
    requires E.a == Red(E.p, a) && E.d == Red(E.p, d)
    ensures AddPoints(E, RedPoint(E.p, P), RedPoint(E.p, Q)) == RedPoint(E.p, AddZ(a, d, P, Q))
  {
    hide IsResidue, Red, Add, Sub, Mul;
    Homomorphism(E.p);
  }

  function Product(e: int, f: int, g: int, h: int): Extended {
    Extended(e * f, g * h, f * g, h * e)
  }

  lemma AddFactors(a: int, d: int, P: Extended, Q: Extended)
    ensures AddZ(a, d, P, Q)
         == Product(P.X * Q.Y + P.Y * Q.X, P.Z * Q.Z - d * (P.T * Q.T), P.Z * Q.Z + d * (P.T * Q.T), P.Y * Q.Y - a * (P.X * Q.X))
  {
    assert (P.X + P.Y) * (Q.X + Q.Y) - (P.X * Q.X + P.Y * Q.Y) == P.X * Q.Y + P.Y * Q.X;
  }

  // ----- the invariants are kept

  /** (a) a e^2 + h^2 is the product of the two left-hand sides. */
  lemma LeftProduct(a: int, P: Extended, Q: Extended)
    ensures var e, h := P.X * Q.Y + P.Y * Q.X, P.Y * Q.Y - a * (P.X * Q.X);
            a * (e * e) + h * h == LeftSide(a, P) * LeftSide(a, Q)
  {
    var u, v, w, z := P.X * Q.Y, P.Y * Q.X, P.Y * Q.Y, P.X * Q.X;
    assert u * v == w * z;
    assert (u + v) * (u + v) == u * u + 2 * (u * v) + v * v;
    assert (w - a * z) * (w - a * z) == w * w - 2 * (a * (w * z)) + a * a * (z * z);
    assert a * (u * u + 2 * (w * z) + v * v) == a * (u * u) + 2 * (a * (w * z)) + a * (v * v);
    TwoBinomials(a, P.X, P.Y, Q.X, Q.Y);
  }

  lemma TwoBinomials(c: int, x1: int, y1: int, x2: int, y2: int)
    ensures (c * (x1 * x1) + y1 * y1) * (c * (x2 * x2) + y2 * y2)
         == c * (x1 * y2 * (x1 * y2)) + c * (y1 * x2 * (y1 * x2)) + y1 * y2 * (y1 * y2) + c * c * (x1 * x2 * (x1 * x2))
  {
    ExpandBinomials(c, x1 * x1, y1 * y1, x2 * x2, y2 * y2);
    ProductSquared(x1, y2);
    ProductSquared(y1, x2);
    ProductSquared(y1, y2);
    ProductSquared(x1, x2);
  }

  lemma ExpandBinomials(c: int, u1: int, v1: int, u2: int, v2: int)
    ensures (c * u1 + v1) * (c * u2 + v2) == c * (u1 * v2) + c * (v1 * u2) + v1 * v2 + c * c * (u1 * u2)
  {
  }

  /** (b) The product of the right-hand sides is g^2 + d k^2. */
  lemma RightProduct(d: int, P: Extended, Q: Extended)
    ensures var g, k := P.Z * Q.Z + d * (P.T * Q.T), P.Z * Q.T - P.T * Q.Z;
            RightSide(d, P) * RightSide(d, Q) == g * g + d * (k * k)
  {
    var u, v, w, z := P.Z * Q.Z, P.T * Q.T, P.Z * Q.T, P.T * Q.Z;
    assert u * v == w * z;
    assert (u + d * v) * (u + d * v) == u * u + 2 * (d * (u * v)) + d * d * (v * v);
    assert d * ((w - z) * (w - z)) == d * (w * w) - 2 * (d * (w * z)) + d * (z * z);
    TwoBinomials(d, P.T, P.Z, Q.T, Q.Z);
  }

  /** (c) h m through the products X Y and the left-hand sides. */
  lemma CrossLeft(a: int, P: Extended, Q: Extended)
    ensures (P.Y * Q.Y - a * (P.X * Q.X)) * (P.X * Q.Y - P.Y * Q.X)
         == P.X * P.Y * LeftSide(a, Q) - Q.X * Q.Y * LeftSide(a, P)
  {
  }

  /** (d) The same with Z T and the right-hand sides is - f k. */
  lemma CrossRight(d: int, P: Extended, Q: Extended)
    ensures P.Z * P.T * RightSide(d, Q) - Q.Z * Q.T * RightSide(d, P)
         == 0 - (P.Z * Q.Z - d * (P.T * Q.T)) * (P.Z * Q.T - P.T * Q.Z)
  {
    CrossProducts(d, P.Z, P.T, Q.Z, Q.T);
  }

  lemma CrossProducts(d: int, z1: int, t1: int, z2: int, t2: int)
    ensures z1 * t1 * (z2 * z2 + d * (t2 * t2)) - z2 * t2 * (z1 * z1 + d * (t1 * t1))
         == 0 - (z1 * z2 - d * (t1 * t2)) * (z1 * t2 - t1 * z2)
  {
    FirstCross(d, z1, t1, z2, t2);
    SecondCross(d, z1, t1, z2, t2);
    CrossDifference(z1 * z2, d * (t1 * t2), z1 * t2, t1 * z2);
  }

  lemma FirstCross(d: int, z1: int, t1: int, z2: int, t2: int)
    ensures z1 * t1 * (z2 * z2 + d * (t2 * t2)) == z1 * z2 * (t1 * z2) + d * (t1 * t2) * (z1 * t2)
  {
  }

  lemma SecondCross(d: int, z1: int, t1: int, z2: int, t2: int)
    ensures z2 * t2 * (z1 * z1 + d * (t1 * t1)) == z1 * z2 * (z1 * t2) + d * (t1 * t2) * (t1 * z2)
  {
  }

  lemma CrossDifference(s: int, w: int, u: int, v: int)
    ensures s * v + w * u - (s * u + w * v) == 0 - (s - w) * (u - v)
  {
  }

  /** (e) e^2 = 4 X1 Y1 X2 Y2 + m^2, and g^2 - f^2 = 4 d Z1 T1 Z2 T2. */
  lemma SumSquare(d: int, P: Extended, Q: Extended)
    ensures var e, m := P.X * Q.Y + P.Y * Q.X, P.X * Q.Y - P.Y * Q.X;
            e * e == 4 * (P.X * P.Y * (Q.X * Q.Y)) + m * m
    ensures var f, g := P.Z * Q.Z - d * (P.T * Q.T), P.Z * Q.Z + d * (P.T * Q.T);
            g * g - f * f == d * (4 * (P.Z * P.T * (Q.Z * Q.T)))
  {
    var u, v := P.X * Q.Y, P.Y * Q.X;
    assert (u + v) * (u + v) == 4 * (u * v) + (u - v) * (u - v);
    assert u * v == P.X * P.Y * (Q.X * Q.Y);
    var s, t := P.Z * Q.Z, P.T * Q.T;
    assert (s + d * t) * (s + d * t) - (s - d * t) * (s - d * t) == 4 * (d * (s * t));
    assert s * t == P.Z * P.T * (Q.Z * Q.T);
  }

  /** The pieces put together. */
  lemma ProductOnExtended(p: OddPrime, a: int, d: int, e: int, f: int, g: int, h: int, k: int, m: int, w: int)
    requires Red(p, a * (e * e) + h * h) == Red(p, g * g + d * (k * k))
    requires Red(p, e * e) == Red(p, w + m * m) && g * g - f * f == d * w
    requires Red(p, h * m) == Red(p, 0 - f * k)
    ensures OnExtended(p, a, d, Product(e, f, g, h))
  {
    hide *;
    var ff, gg, hh, ee, kk, mm := f * f, g * g, h * h, e * e, k * k, m * m;
    CongProduct(p, a * ee + hh, gg + d * kk, ff, ff);
    CongProduct(p, ee, w + mm, d * hh, d * hh);
    CongProduct(p, h * m, 0 - f * k, h * m, 0 - f * k);
    CongProduct(p, h * m * (h * m), (0 - f * k) * (0 - f * k), d, d);
    SquaresOut(f, k, h, m, d);
    var u, v := (gg + d * kk) * ff + d * w * hh, (w + mm) * (d * hh) + ff * gg;
    ZeroCongTwo(p, (a * ee + hh) * ff, (gg + d * kk) * ff, d * w * hh, ee * (d * hh), (w + mm) * (d * hh), ff * gg);
    CongSub(p, d * (ff * kk), d * (mm * hh));
    FinalDifference(ff, gg, hh, kk, mm, d, w);
    CongSub(p, u, v);
    LeftCollect(a, ee, ff, gg, hh, d * w);
    ProductSides(p, a, d, e, f, g, h);
  }

  lemma ProductSides(p: OddPrime, a: int, d: int, e: int, f: int, g: int, h: int)
    requires Red(p, a * (e * e * (f * f)) + g * g * (h * h)) == Red(p, e * e * (d * (h * h)) + f * f * (g * g))
    ensures OnExtended(p, a, d, Product(e, f, g, h))
  {
    hide Red;
    SidesOfProduct(a, d, e, f, g, h);
    assert e * e * (d * (h * h)) == d * (h * h * (e * e));
  }

  lemma SquaresOut(f: int, k: int, h: int, m: int, d: int)
    ensures (0 - f * k) * (0 - f * k) * d == d * (f * f * (k * k))
    ensures h * m * (h * m) * d == d * (m * m * (h * h))
  {
  }

  lemma ZeroCongTwo(p: OddPrime, x: int, x': int, y: int, z: int, z': int, t: int)
    requires Red(p, x) == Red(p, x') && Red(p, z) == Red(p, z')
    ensures Red(p, x + y) == Red(p, x' + y) && Red(p, z + t) == Red(p, z' + t)
  {
    hide *;
    PrimeField.AddHom(p, x, y);
    PrimeField.AddHom(p, x', y);
    PrimeField.AddHom(p, z, t);
    PrimeField.AddHom(p, z', t);
  }

  lemma FinalDifference(ff: int, gg: int, hh: int, kk: int, mm: int, d: int, w: int)
    ensures (gg + d * kk) * ff + d * w * hh - ((w + mm) * (d * hh) + ff * gg) == d * (ff * kk) - d * (mm * hh)
  {
  }

  lemma LeftCollect(a: int, ee: int, ff: int, gg: int, hh: int, dw: int)
    requires gg - ff == dw
    ensures (a * ee + hh) * ff + dw * hh == a * (ee * ff) + gg * hh
  {
    assert dw * hh == gg * hh - ff * hh;
  }

  lemma SidesOfProduct(a: int, d: int, e: int, f: int, g: int, h: int)
    ensures LeftSide(a, Product(e, f, g, h)) == a * (e * e * (f * f)) + g * g * (h * h)
    ensures RightSide(d, Product(e, f, g, h)) == f * f * (g * g) + d * (h * h * (e * e))
    ensures e * f * (g * h) == f * g * (h * e)
  {
  }

  lemma AddZOnExtended(p: OddPrime, a: int, d: int, P: Extended, Q: Extended)
    requires OnExtended(p, a, d, P) && OnExtended(p, a, d, Q)
    ensures OnExtended(p, a, d, AddZ(a, d, P, Q))
  {
    hide Red, AddZ, LeftSide, RightSide, Product;
    var e, f := P.X * Q.Y + P.Y * Q.X, P.Z * Q.Z - d * (P.T * Q.T);
    var g, h := P.Z * Q.Z + d * (P.T * Q.T), P.Y * Q.Y - a * (P.X * Q.X);
    var k, m, w := P.Z * Q.T - P.T * Q.Z, P.X * Q.Y - P.Y * Q.X, 4 * (P.Z * P.T * (Q.Z * Q.T));
    hide *;
    AddFactors(a, d, P, Q);
    InvariantSides(p, a, d, P);
    InvariantSides(p, a, d, Q);
    LeftProduct(a, P, Q);
    RightProduct(d, P, Q);
    CongProduct(p, LeftSide(a, P), RightSide(d, P), LeftSide(a, Q), RightSide(d, Q));
    CrossLeft(a, P, Q);
    CrossRight(d, P, Q);
    CongProduct(p, P.X * P.Y, P.Z * P.T, LeftSide(a, Q), RightSide(d, Q));
    CongProduct(p, Q.X * Q.Y, Q.Z * Q.T, LeftSide(a, P), RightSide(d, P));
    CongDifference(p, P.X * P.Y * LeftSide(a, Q), P.Z * P.T * RightSide(d, Q), Q.X * Q.Y * LeftSide(a, P), Q.Z * Q.T * RightSide(d, P));
    SumSquare(d, P, Q);
    CongProduct(p, P.X * P.Y, P.Z * P.T, Q.X * Q.Y, Q.Z * Q.T);
    CongProduct(p, 4, 4, P.X * P.Y * (Q.X * Q.Y), P.Z * P.T * (Q.Z * Q.T));
    ZeroCongTwo(p, 4 * (P.X * P.Y * (Q.X * Q.Y)), w, m * m, 0, 0, 0);
    ProductOnExtended(p, a, d, e, f, g, h, k, m, w);
  }

  lemma InvariantSides(p: OddPrime, a: int, d: int, P: Extended)
    requires OnExtended(p, a, d, P)
    ensures Red(p, P.X * P.Y) == Red(p, P.Z * P.T) && Red(p, LeftSide(a, P)) == Red(p, RightSide(d, P))
  {
  }

  function FieldSides(p: OddPrime, a: int, d: int, P: Extended): (nat, nat, nat, nat) {
    (Mul(p, P.X, P.Y), Mul(p, P.Z, P.T),
     Add(p, Mul(p, a, Mul(p, P.X, P.X)), Mul(p, P.Y, P.Y)), Add(p, Mul(p, P.Z, P.Z), Mul(p, d, Mul(p, P.T, P.T))))
  }

  lemma SidesHom(p: OddPrime, a: int, d: int, P: Extended)
    ensures FieldSides(p, Red(p, a), Red(p, d), RedPoint(p, P))
         == (Red(p, P.X * P.Y), Red(p, P.Z * P.T), Red(p, LeftSide(a, P)), Red(p, RightSide(d, P)))
  {
    hide IsResidue, Red, Add, Mul;
    Homomorphism(p);
  }

  lemma OnExtendedRed(p: OddPrime, a: nat, d: nat, P: Extended)
    requires IsResidue(p, a) && IsResidue(p, d)
    ensures OnExtended(p, a, d, RedPoint(p, P)) <==> OnExtended(p, a, d, P)
  {
    hide Red, FieldSides, LeftSide, RightSide;
    Reduced(p, a);
    Reduced(p, d);
    SidesHom(p, a, d, P);
    SidesHom(p, a, d, RedPoint(p, P));
    RedOfRed(p, P.X);
    RedOfRed(p, P.Y);
    RedOfRed(p, P.Z);
    RedOfRed(p, P.T);
  }

  lemma CanonicalRed(p: OddPrime, P: Extended)
    requires Canonical(p, P)
    ensures RedPoint(p, P) == P
  {
    hide Red;
    Reduced(p, P.X);
    Reduced(p, P.Y);
    Reduced(p, P.Z);
    Reduced(p, P.T);
  }

  /** The program's addition keeps both invariants of the coordinates. */
  lemma AddOnExtended(E: Curve, P: Extended, Q: Extended)
    requires InRange(E) && Canonical(E.p, P) && Canonical(E.p, Q)
    requires OnExtended(E.p, E.a, E.d, P) && OnExtended(E.p, E.a, E.d, Q)
    ensures OnExtended(E.p, E.a, E.d, AddPoints(E, P, Q))
  {
    hide Red, AddPoints, AddZ, RedPoint, OnExtended;
    CanonicalRed(E.p, P);
    CanonicalRed(E.p, Q);
    Reduced(E.p, E.a);
    Reduced(E.p, E.d);
    AddHom(E, E.a, E.d, P, Q);
    AddZOnExtended(E.p, E.a, E.d, P, Q);
    OnExtendedRed(E.p, E.a, E.d, AddZ(E.a, E.d, P, Q));
  }

  // ----- the affine value

  function Scaled(x: int, y: int, z: int): Extended {
    Extended(x * z, y * z, z, x * y * z)
  }

  lemma FourthCoordinate(p: OddPrime, X: int, Y: int, Z: int, T: int, x: int, y: int)
    requires Red(p, X * Y) == Red(p, Z * T) && Red(p, Z) != 0
    requires Red(p, x * Z) == Red(p, X) && Red(p, y * Z) == Red(p, Y)
    ensures Red(p, T) == Red(p, x * y * Z)
  {
    hide *;
    CongProduct(p, x * Z, X, y * Z, Y);
    RearrangeProduct(x, y, Z);
    CongCancel(p, Z, T, x * y * Z);
  }

  lemma RearrangeProduct(x: int, y: int, z: int)
    ensures x * z * (y * z) == z * (x * y * z)
  {
  }

  lemma ValueProducts(p: OddPrime, P: Extended)
    requires Canonical(p, P) && P.Z != 0
    ensures var A := Value(p, P); Red(p, A.x * P.Z) == P.X && Red(p, A.y * P.Z) == P.Y
  {
    hide Red, Mul;
    MulIsRed(p, Value(p, P).x, P.Z);
    MulIsRed(p, Value(p, P).y, P.Z);
  }

  /** A valid point is its affine value scaled by its own Z. */
  lemma ScaledValue(E: Curve, P: Extended)
    requires ValidPoint(E, P)
    ensures P == RedPoint(E.p, Scaled(Value(E.p, P).x, Value(E.p, P).y, P.Z))
  {
    hide Red, LeftSide, RightSide, Value;
    var p, A := E.p, Value(E.p, P);
    CanonicalRed(p, P);
    ValueProducts(p, P);
    FourthCoordinate(p, P.X, P.Y, P.Z, P.T, A.x, A.y);
  }

  lemma ValueOfQuotients(p: OddPrime, P: Extended, A: EPoint)
    requires Canonical(p, P) && P.Z != 0 && IsResidue(p, A.x) && IsResidue(p, A.y)
    requires Mul(p, A.x, P.Z) == P.X && Mul(p, A.y, P.Z) == P.Y
    ensures Value(p, P) == A
  {
    hide Mul;
  }

  lemma AddScaled(a: int, d: int, x1: int, y1: int, z1: int, x2: int, y2: int, z2: int)
    ensures var k, t := z1 * z2, Twist(d, x1, y1, x2, y2);
            AddZ(a, d, Scaled(x1, y1, z1), Scaled(x2, y2, z2))
            == Product(k * (x1 * y2 + y1 * x2), k * (1 - t), k * (1 + t), k * (y1 * y2 - a * (x1 * x2)))
  {
    hide AddZ, Twist, Product;
    AddFactors(a, d, Scaled(x1, y1, z1), Scaled(x2, y2, z2));
    FirstFactor(x1, y1, z1, x2, y2, z2);
    MiddleFactors(d, x1, y1, z1, x2, y2, z2);
    LastFactor(a, x1, y1, z1, x2, y2, z2);
  }

  lemma FirstFactor(x1: int, y1: int, z1: int, x2: int, y2: int, z2: int)
    ensures x1 * z1 * (y2 * z2) + y1 * z1 * (x2 * z2) == z1 * z2 * (x1 * y2 + y1 * x2)
  {
  }

  lemma MiddleFactors(d: int, x1: int, y1: int, z1: int, x2: int, y2: int, z2: int)
    ensures var t := Twist(d, x1, y1, x2, y2);
            && z1 * z2 - d * (x1 * y1 * z1 * (x2 * y2 * z2)) == z1 * z2 * (1 - t)
            && z1 * z2 + d * (x1 * y1 * z1 * (x2 * y2 * z2)) == z1 * z2 * (1 + t)
  {
    assert d * (x1 * y1 * z1 * (x2 * y2 * z2)) == z1 * z2 * Twist(d, x1, y1, x2, y2);
  }

  lemma LastFactor(a: int, x1: int, y1: int, z1: int, x2: int, y2: int, z2: int)
    ensures y1 * z1 * (y2 * z2) - a * (x1 * z1 * (x2 * z2)) == z1 * z2 * (y1 * y2 - a * (x1 * x2))
  {
  }

  /** A fraction n / d over a common factor: k n * (k m) over k m * (k d). */
  lemma QuotientOverFactor(p: OddPrime, n: int, d: int, m: int, k: int)
    requires Red(p, d) != 0
    ensures Mul(p, Div(p, Red(p, n), Red(p, d)), Red(p, k * m * (k * d))) == Red(p, k * n * (k * m))
  {
    hide *;
    var q := Div(p, Red(p, n), Red(p, d));
    QuotientCongruence(p, q, d, n);
    MulHom(p, q, k * m * (k * d));
    IsReduced(p, q);
    CongMul(p, q * d, n, k * k * m);
    RearrangeQuotient(q, n, d, m, k);
  }

  lemma IsReduced(p: OddPrime, q: nat)
    requires IsResidue(p, q)
    ensures Red(p, q) == q
  {
    hide Red;
    Reduced(p, q);
  }

  lemma RearrangeQuotient(q: int, n: int, d: int, m: int, k: int)
    ensures q * (k * m * (k * d)) == q * d * (k * k * m)
    ensures k * n * (k * m) == n * (k * k * m)
  {
  }

  /** The program's addition computes the affine rule wherever the rule's
      denominators are nonzero, and its result is again a valid point. */
  lemma AddPointsValue(E: Curve, P: Extended, Q: Extended)
    requires InRange(E) && ValidPoint(E, P) && ValidPoint(E, Q)
    requires Summable(E, Value(E.p, P), Value(E.p, Q))
    ensures ValidPoint(E, AddPoints(E, P, Q))
    ensures Value(E.p, AddPoints(E, P, Q)) == Edwards.Plus(E, Value(E.p, P), Value(E.p, Q))
  {
    hide *;
    ValidZ(E, P);
    ValidZ(E, Q);
    AddOnExtended(E, P, Q);
    AddPointsScaled(E, P, Q);
    ValidZ(E, AddPoints(E, P, Q));
    NonzeroDenominator(E.p, P.Z, Q.Z);
    var A, B := Value(E.p, P), Value(E.p, Q);
    var t := Twist(E.d, A.x, A.y, B.x, B.y);
    SumValue(E, A, B, P.Z * Q.Z, 1 - t, 1 + t, AddPoints(E, P, Q));
  }

  /** The sum of two affine points over a common factor k, with f and g the
      denominators of the addition rule. */
  function SumProduct(a: int, A: EPoint, B: EPoint, k: int, f: int, g: int): Extended {
    Product(k * XNumerator(A, B), k * f, k * g, k * YNumerator(a, A, B))
  }

  lemma SumValue(E: Curve, A: EPoint, B: EPoint, k: int, f: int, g: int, S: Extended)
    requires Summable(E, A, B) && f == 1 - Twist(E.d, A.x, A.y, B.x, B.y) && g == 1 + Twist(E.d, A.x, A.y, B.x, B.y)
    requires Red(E.p, k) != 0 && S == RedPoint(E.p, SumProduct(E.a, A, B, k, f, g))
    ensures S.Z != 0 && Value(E.p, S) == Edwards.Plus(E, A, B)
  {
    hide Red, Mul, Div, Value, RedPoint, Twist, Product, XNumerator, YNumerator, IsResidue;
    ProductValue(E.p, k, XNumerator(A, B), f, g, YNumerator(E.a, A, B), S, Edwards.Plus(E, A, B));
  }

  lemma NonzeroDenominator(p: OddPrime, z1: nat, z2: nat)
    requires IsResidue(p, z1) && z1 != 0 && IsResidue(p, z2) && z2 != 0
    ensures Red(p, z1 * z2) != 0
  {
    hide Red;
    Reduced(p, z1);
    Reduced(p, z2);
    ZeroProduct(p, z1, z2);
  }

  lemma ProductValue(p: OddPrime, k: int, n: int, f: int, g: int, m: int, S: Extended, A: EPoint)
    requires Red(p, k) != 0 && Red(p, f) != 0 && Red(p, g) != 0 && S == RedPoint(p, Product(k * n, k * f, k * g, k * m))
    requires A == EPoint(Div(p, Red(p, n), Red(p, g)), Div(p, Red(p, m), Red(p, f)))
    ensures S.Z != 0 && Value(p, S) == A
  {
    hide Red, Mul, Div, Value, RedPoint, Product;
    ProductQuotients(p, k, n, f, g, m, S);
    ZeroProduct(p, k, f);
    ZeroProduct(p, k, g);
    ZeroProduct(p, k * f, k * g);
    ValueOfQuotients(p, S, A);
  }

  lemma ValidZ(E: Curve, P: Extended)
    requires InRange(E)
    ensures ValidPoint(E, P) <==> Canonical(E.p, P) && P.Z != 0 && OnExtended(E.p, E.a, E.d, P)
    ensures Canonical(E.p, P) ==> IsResidue(E.p, P.Z)
  {
  }

  lemma AddPointsScaled(E: Curve, P: Extended, Q: Extended)
    requires InRange(E) && ValidPoint(E, P) && ValidPoint(E, Q)
    ensures var A, B := Value(E.p, P), Value(E.p, Q);
            var t := Twist(E.d, A.x, A.y, B.x, B.y);
            AddPoints(E, P, Q) == RedPoint(E.p, SumProduct(E.a, A, B, P.Z * Q.Z, 1 - t, 1 + t))
  {
    hide Red, AddPoints, Value, OnExtended, RedPoint, Scaled, AddZ, Twist, Product;
    var p, A, B := E.p, Value(E.p, P), Value(E.p, Q);
    ScaledValue(E, P);
    ScaledValue(E, Q);
    IsReduced(p, E.a);
    IsReduced(p, E.d);
    AddHom(E, E.a, E.d, Scaled(A.x, A.y, P.Z), Scaled(B.x, B.y, Q.Z));
    AddScaled(E.a, E.d, A.x, A.y, P.Z, B.x, B.y, Q.Z);
  }

  lemma ProductQuotients(p: OddPrime, k: int, n: int, f: int, g: int, m: int, S: Extended)
    requires Red(p, f) != 0 && Red(p, g) != 0 && S == RedPoint(p, Product(k * n, k * f, k * g, k * m))
    ensures Mul(p, Div(p, Red(p, n), Red(p, g)), S.Z) == S.X
    ensures Mul(p, Div(p, Red(p, m), Red(p, f)), S.Z) == S.Y
    ensures S.Z == Red(p, k * f * (k * g))
  {
    hide Red, Mul, Div;
    QuotientOverFactor(p, n, g, f, k);
    QuotientOverFactor(p, m, f, g, k);
    assert k * g * (k * f) == k * f * (k * g) && k * m * (k * g) == k * g * (k * m);
  }

  // ----- the equality test

  lemma ProjectiveEqQuotient(p: OddPrime, An: nat, Ad: nat, Bn: nat, Bd: nat)
    requires IsResidue(p, An) && IsResidue(p, Ad) && IsResidue(p, Bn) && IsResidue(p, Bd) && Ad != 0 && Bd != 0
    ensures ProjectiveEq(p, An, Ad, Bn, Bd) <==> Div(p, An, Ad) == Div(p, Bn, Bd)
  {
    hide Mul, Div;
    var q, r := Div(p, An, Ad), Div(p, Bn, Bd);
    MulAssoc(p, q, Ad, Bd);
    MulAssoc(p, r, Bd, Ad);
    MulComm(p, Ad, Bd);
    MulComm(p, q, Mul(p, Ad, Bd));
    MulComm(p, r, Mul(p, Ad, Bd));
    if ProjectiveEq(p, An, Ad, Bn, Bd) {
      if Mul(p, Ad, Bd) == 0 {
        NoZeroDivisors(p, Ad, Bd);
      }
      Cancel(p, Mul(p, Ad, Bd), q, r);
    }
  }

  /** ecc_edwards_eq holds exactly when the affine values are the same. */
  lemma PointsEqValue(E: Curve, P: Extended, Q: Extended)
    requires Canonical(E.p, P) && Canonical(E.p, Q) && P.Z != 0 && Q.Z != 0
    ensures PointsEq(E.p, P, Q) <==> Value(E.p, P) == Value(E.p, Q)
  {
    hide Mul, Div;
    ProjectiveEqQuotient(E.p, P.X, P.Z, Q.X, Q.Z);
    ProjectiveEqQuotient(E.p, P.Y, P.Z, Q.Y, Q.Z);
  }

  /** Addition respects the equality test: other projective coordinates of the
      same inputs give an equal output. */
  lemma AddRespectsEq(E: Curve, P: Extended, P': Extended, Q: Extended, Q': Extended)
    requires InRange(E) && ValidPoint(E, P) && ValidPoint(E, P') && ValidPoint(E, Q) && ValidPoint(E, Q')
    requires PointsEq(E.p, P, P') && PointsEq(E.p, Q, Q')
    requires Summable(E, Value(E.p, P), Value(E.p, Q))
    ensures PointsEq(E.p, AddPoints(E, P, Q), AddPoints(E, P', Q'))
  {
    hide Red, Mul, Div, AddPoints, Value, OnExtended, PointsEq, Summable;
    PointsEqValue(E, P, P');
    PointsEqValue(E, Q, Q');
    AddPointsValue(E, P, Q);
    AddPointsValue(E, P', Q');
    PointsEqValue(E, AddPoints(E, P, Q), AddPoints(E, P', Q'));
  }

  /** The affine value of a valid point is on the curve. */
  lemma ValueOnCurve(E: Curve, P: Extended)
    requires InRange(E) && ValidPoint(E, P)
    ensures OnCurve(E, Value(E.p, P))
  {
    hide Red, Mul, Div, Value, RedPoint, Scaled, LeftSide, RightSide, Residual;
    var p, A := E.p, Value(E.p, P);
    ScaledValue(E, P);
    OnExtendedRed(p, E.a, E.d, Scaled(A.x, A.y, P.Z));
    var S := Scaled(A.x, A.y, P.Z);
    ScaledSides(E.a, E.d, A.x, A.y, P.Z);
    CongSub(p, LeftSide(E.a, S), RightSide(E.d, S));
    ZeroProduct(p, P.Z * P.Z, Residual(E.a, E.d, A.x, A.y));
    ZeroProduct(p, P.Z, P.Z);
    Reduced(p, P.Z);
  }

  lemma ScaledSides(a: int, d: int, x: int, y: int, z: int)
    ensures LeftSide(a, Scaled(x, y, z)) - RightSide(d, Scaled(x, y, z)) == z * z * Residual(a, d, x, y)
  {
    var t := z * z;
    assert a * (x * z * (x * z)) + y * z * (y * z) == (a * (x * x) + y * y) * t;
    assert d * (x * y * z * (x * y * z)) == d * (x * x * (y * y)) * t;
  }
}
