/**
 The Jacobian formulas compute the affine group law: for every pair of
 arguments the program's assertion lets through, for every doubling, and for
 the general addition exactly under the condition given here.
 */
module JacobianGroup {
  import opened PrimeField
  import opened Weierstrass
  import opened JacobianFormulas

  /** Over their common denominator D, two finite points have the chord of their
      affine values scaled by powers of D. */
  lemma PrologueValue(p: OddPrime, P: Jacobian, Q: Jacobian)
    requires Canonical(p, P) && Canonical(p, Q) && P.Z != 0 && Q.Z != 0
    ensures var A, B := Value(p, P), Value(p, Q);
            Prologue(p, P, Q) == RedChord(p, ScaledChord(A.x, A.y, B.x, B.y, P.Z * Q.Z))
    ensures Red(p, P.Z * Q.Z) != 0
  {
    hide Red, Value, Prologue, RedChord, ScaledChord, RedTriple, Scaled;
    var A, B := Value(p, P), Value(p, Q);
    ScaledValue(p, P);
    ScaledValue(p, Q);
    PrologueHom(p, Scaled(A.x, A.y, P.Z), Scaled(B.x, B.y, Q.Z));
    PrologueScaled(A.x, A.y, P.Z, B.x, B.y, Q.Z);
    Reduced(p, P.Z);
    Reduced(p, Q.Z);
    ZeroProduct(p, P.Z, Q.Z);
  }

  lemma ScaledSlope(p: OddPrime, l: int, dx: int, dy: int, D: int)
    requires Red(p, l * dx) == Red(p, dy)
    ensures Red(p, dy * (D * D * D)) == Red(p, l * D * (dx * (D * D)))
  {
    hide *;
    CongMul(p, l * dx, dy, D * D * D);
    ScaledSlopeProduct(l, dx, D);
  }

  lemma ScaledSlopeProduct(l: int, dx: int, D: int)
    ensures l * dx * (D * D * D) == l * D * (dx * (D * D))
  {
  }

  /** A chord whose ends have different x-coordinates. */
  lemma ChordValue(E: Curve, A: Point, B: Point, D: int)
    requires InField(E, A) && InField(E, B) && A.Affine? && B.Affine? && A.x != B.x && Red(E.p, D) != 0
    ensures var c := RedChord(E.p, ScaledChord(A.x, A.y, B.x, B.y, D));
            && c.ld != 0
            && Value(E.p, Epilogue(E.p, c.Px, c.Qx, c.Py, c.denom, c.ln, c.ld)) == Plus(E, A, B)
  {
    hide Red, Mul, Sub, Slope, Plus, Value, Epilogue, LinePoint;
    var p, l, dx, dy := E.p, Slope(E, A, B), B.x - A.x, B.y - A.y;
    ChordSlope(E, A, B);
    ScaledSlope(p, l, dx, dy, D);
    EpilogueValue(p, A.x, B.x, A.y, D, l, dx * (D * D));
    CongSub(p, B.x, A.x);
    Reduced(p, A.x);
    Reduced(p, B.x);
    ZeroProduct(p, dx, D * D);
    ZeroProduct(p, D, D);
  }

  lemma ChordSlope(E: Curve, A: Point, B: Point)
    requires InField(E, A) && InField(E, B) && A.Affine? && B.Affine? && A.x != B.x
    ensures Red(E.p, Slope(E, A, B) * (B.x - A.x)) == Red(E.p, B.y - A.y)
  {
    SlopeIsQuotient(E, A, B);
    hide Red, Mul, Slope;
    QuotientCongruence(E.p, Slope(E, A, B), B.x - A.x, B.y - A.y);
  }

  lemma SlopeIsQuotient(E: Curve, A: Point, B: Point)
    requires InField(E, A) && InField(E, B) && A.Affine? && B.Affine? && A.x != B.x
    ensures Mul(E.p, Slope(E, A, B), Sub(E.p, B.x, A.x)) == Sub(E.p, B.y, A.y)
  {
    hide Red, Mul, Sub;
  }

  /** ecc_weierstrass_add computes the group law on finite points its assertion
      accepts, including mutually inverse ones. */
  lemma AddPointsValue(E: Curve, P: Jacobian, Q: Jacobian)
    requires Canonical(E.p, P) && Canonical(E.p, Q) && P.Z != 0 && Q.Z != 0
    requires Addable(E.p, P, Q)
    ensures Value(E.p, AddPoints(E.p, P, Q)) == Plus(E, Value(E.p, P), Value(E.p, Q))
  {
    hide Red, Value, Prologue, Epilogue, Plus, ScaledChord, RedChord;
    var p := E.p;
    var A, B := Value(p, P), Value(p, Q);
    PrologueValue(p, P, Q);
    if A.x != B.x {
      ChordValue(E, A, B, P.Z * Q.Z);
    } else {
      VerticalChord(p, A.x, A.y, B.y, P.Z * Q.Z);
      EpilogueZero(p, Prologue(p, P, Q));
      PlusVertical(E, A, B);
    }
  }

  lemma PlusVertical(E: Curve, A: Point, B: Point)
    requires InField(E, A) && InField(E, B) && A.Affine? && B.Affine? && A.x == B.x
    requires A.y != B.y || A.y == 0
    ensures Plus(E, A, B) == Infinity
  {
  }

  lemma VerticalChord(p: OddPrime, x: nat, y1: nat, y2: nat, D: int)
    requires IsResidue(p, y1) && IsResidue(p, y2) && Red(p, D) != 0
    ensures var c := RedChord(p, ScaledChord(x, y1, x, y2, D));
            c.ld == 0 && (c.ln == 0 <==> y1 == y2)
  {
    hide Red;
    assert (x - x) * (D * D) == 0;
    Reduced(p, 0);
    ZeroProduct(p, y2 - y1, D * D * D);
    ZeroProduct(p, D * D, D);
    ZeroProduct(p, D, D);
    CongSub(p, y2, y1);
    Reduced(p, y1);
    Reduced(p, y2);
  }

  /** A vanishing denominator gives a triple at infinity. */
  lemma EpilogueZero(p: OddPrime, c: Chord)
    requires c.denom == 0 || c.ld == 0
    ensures Epilogue(p, c.Px, c.Qx, c.Py, c.denom, c.ln, c.ld).Z == 0
    ensures Value(p, Epilogue(p, c.Px, c.Qx, c.Py, c.denom, c.ln, c.ld)) == Infinity
  {
    MulZero(p, c.denom);
    MulZero(p, c.ld);
    hide Red, Mul;
  }

  /** With a point at infinity the program's addition always answers infinity. */
  lemma AddPointsInfinite(p: OddPrime, P: Jacobian, Q: Jacobian)
    requires Canonical(p, P) && Canonical(p, Q) && (P.Z == 0 || Q.Z == 0)
    requires Addable(p, P, Q)
    ensures Value(p, AddPoints(p, P, Q)) == Infinity
  {
    MulZero(p, P.Z);
    MulZero(p, Q.Z);
    EpilogueZero(p, Prologue(p, P, Q));
  }

  lemma NotBothInfinite(p: OddPrime, P: Jacobian, Q: Jacobian)
    requires P.Z == 0 && Q.Z == 0
    ensures !Addable(p, P, Q)
  {
    MulZero(p, 0);
    MulZero(p, P.Y);
    MulZero(p, Q.Y);
    Reduced(p, 0);
    hide Mul, Red;
  }

  /** ecc_weierstrass_add is the group law on exactly the finite points among
      those its assertion accepts. */
  lemma AddPointsExactly(E: Curve, P: Jacobian, Q: Jacobian)
    requires Canonical(E.p, P) && Canonical(E.p, Q) && Addable(E.p, P, Q)
    ensures Value(E.p, AddPoints(E.p, P, Q)) == Plus(E, Value(E.p, P), Value(E.p, Q)) <==> P.Z != 0 && Q.Z != 0
  {
    hide Addable, AddPoints, Red;
    if P.Z != 0 && Q.Z != 0 {
      AddPointsValue(E, P, Q);
    } else {
      AddPointsInfinite(E.p, P, Q);
      if P.Z == 0 && Q.Z == 0 {
        NotBothInfinite(E.p, P, Q);
      }
    }
  }

  // ----- the projective curve equation

  function LeftSide(P: Jacobian): int {
    P.Y * P.Y
  }

  function RightSide(a: int, b: int, P: Jacobian): int {
    var z2 := P.Z * P.Z;
    P.X * P.X * P.X + a * (z2 * z2) * P.X + b * (z2 * (z2 * z2))
  }

  lemma PointValidHom(p: OddPrime, a: int, b: int, P: Jacobian)
    ensures PointValid(Curve(p, Red(p, a), Red(p, b)), RedTriple(p, P))
            <==> Red(p, LeftSide(P)) == Red(p, RightSide(a, b, P))
  {
    hide IsResidue, Red, Add, Sub, Mul;
    Homomorphism(p);
  }

  lemma SidesScaled(a: int, b: int, x: int, y: int, z: int)
    ensures RightSide(a, b, Scaled(x, y, z)) - LeftSide(Scaled(x, y, z))
         == z * z * (z * z * (z * z)) * Residual(a, b, x, y)
  {
    var t := z * z;
    var t3 := t * (t * t);
    assert y * (t * z) * (y * (t * z)) == y * y * t3;
    assert x * t * (x * t) * (x * t) == x * x * x * t3;
    assert a * (t * t) * (x * t) == a * x * t3;
  }

  lemma PointValidFinite(E: Curve, P: Jacobian)
    requires Valid(E) && Canonical(E.p, P) && P.Z != 0
    ensures PointValid(E, P) <==> OnCurve(E, Value(E.p, P))
  {
    hide Red, Value, PointValid, LeftSide, RightSide, Residual, Scaled, RedTriple;
    var p, A, z := E.p, Value(E.p, P), P.Z;
    ScaledValue(p, P);
    CurveReduced(E);
    var S := Scaled(A.x, A.y, z);
    PointValidHom(p, E.a, E.b, S);
    SidesScaled(E.a, E.b, A.x, A.y, z);
    CongSub(p, RightSide(E.a, E.b, S), LeftSide(S));
    Reduced(p, z);
    ZeroProduct(p, z * z * (z * z * (z * z)), Residual(E.a, E.b, A.x, A.y));
    ZeroProduct(p, z * z, z * z * (z * z));
    ZeroProduct(p, z * z, z * z);
    ZeroProduct(p, z, z);
  }

  /** The triple is a cusp (t^2 : t^3 : 0): all zeros, or (1 : 1 : 0) scaled. */
  ghost predicate IsCusp(p: OddPrime, P: Jacobian) {
    P.Z == 0 && exists t: nat :: CuspAt(p, P, t)
  }

  predicate CuspAt(p: OddPrime, P: Jacobian, t: nat) {
    IsResidue(p, t) && P.X == Mul(p, t, t) && P.Y == Mul(p, Mul(p, t, t), t)
  }

  lemma PointValidAtInfinity(E: Curve, P: Jacobian)
    requires Valid(E) && Canonical(E.p, P) && P.Z == 0
    ensures PointValid(E, P) <==> Mul(E.p, P.Y, P.Y) == Mul(E.p, Mul(E.p, P.X, P.X), P.X)
  {
    hide Red, Mul;
    var p := E.p;
    var x3 := Mul(p, Mul(p, P.X, P.X), P.X);
    MulZero(p, 0);
    MulZero(p, E.a);
    MulZero(p, E.b);
    MulZero(p, P.X);
    Reduced(p, x3);
  }

  /** A cube that is a square: with x nonzero the root of both is y / x. */
  lemma CuspRoot(p: OddPrime, x: nat, y: nat) returns (t: nat)
    requires IsResidue(p, x) && IsResidue(p, y) && Mul(p, y, y) == Mul(p, Mul(p, x, x), x)
    ensures IsResidue(p, t) && x == Mul(p, t, t) && y == Mul(p, Mul(p, t, t), t)
  {
    hide Red, Mul, Div;
    MulZero(p, 0);
    if x == 0 {
      MulZero(p, x);
      NoZeroDivisors(p, y, y);
      t := 0;
    } else {
      t := Div(p, y, x);
      var t2 := Mul(p, t, t);
      var x2 := Mul(p, x, x);
      MulSquared(p, t, x);
      MulComm(p, x2, t2);
      if x2 == 0 {
        NoZeroDivisors(p, x, x);
      }
      Cancel(p, x2, t2, x);
      MulComm(p, t, x);
    }
  }

  lemma MulSquared(p: OddPrime, t: nat, x: nat)
    ensures Mul(p, Mul(p, t, x), Mul(p, t, x)) == Mul(p, Mul(p, t, t), Mul(p, x, x))
  {
    hide Red;
    MulHom(p, t * x, t * x);
    MulHom(p, t * t, x * x);
    assert t * x * (t * x) == t * t * (x * x);
  }

  lemma CuspSides(p: OddPrime, t: nat)
    ensures var x, y := Mul(p, t, t), Mul(p, Mul(p, t, t), t);
            Mul(p, y, y) == Mul(p, Mul(p, x, x), x)
  {
    hide Red, Mul;
    var x := Mul(p, t, t);
    MulSquared(p, x, t);
  }

  /** The program's projective test accepts a finite triple exactly when its
      affine value is on the curve, and one with Z zero exactly when it is a
      cusp. */
  lemma PointValidValue(E: Curve, P: Jacobian)
    requires Valid(E) && Canonical(E.p, P)
    ensures PointValid(E, P) <==> if P.Z == 0 then IsCusp(E.p, P) else OnCurve(E, Value(E.p, P))
  {
    hide Red, Mul, Value, PointValid, OnCurve, Residual;
    if P.Z != 0 {
      PointValidFinite(E, P);
    } else {
      PointValidAtInfinity(E, P);
      if PointValid(E, P) {
        var t := CuspRoot(E.p, P.X, P.Y);
        assert CuspAt(E.p, P, t);
      }
      forall t: nat | CuspAt(E.p, P, t) ensures PointValid(E, P) {
        CuspSides(E.p, t);
      }
    }
  }

  // ----- doubling

  lemma TangentValue(E: Curve, P: Jacobian)
    requires Valid(E) && Canonical(E.p, P) && P.Z != 0
    ensures var A, z := Value(E.p, P), P.Z;
            && TangentNumerator(E.p, E.a, P) == Red(E.p, (3 * A.x * A.x + E.a) * (z * z * (z * z)))
            && TangentDenominator(E.p, P) == Red(E.p, (A.y + A.y) * (z * z * z))
  {
    hide *;
    var A := Value(E.p, P);
    ScaledValue(E.p, P);
    CurveReduced(E);
    TangentHom(E.p, E.a, Scaled(A.x, A.y, P.Z));
    TangentScaled(E.a, A.x, A.y, P.Z);
  }

  lemma CurveReduced(E: Curve)
    requires Valid(E)
    ensures Red(E.p, E.a) == E.a && Red(E.p, E.b) == E.b
  {
    hide Red;
    Reduced(E.p, E.a);
    Reduced(E.p, E.b);
  }

  lemma TangentSlopeQuotient(E: Curve, x: nat, y: nat)
    requires IsResidue(E.p, x) && IsResidue(E.p, y) && y != 0
    ensures Red(E.p, TangentSlope(E, x, y) * (y + y)) == Red(E.p, 3 * x * x + E.a)
  {
    hide Red, Mul;
    DoubleNonzero(E.p, y);
    QuotientCongruence(E.p, TangentSlope(E, x, y), y + y, 3 * x * x + E.a);
  }

  /** The tangent's fraction in terms of a slope m whose product with k is the
      true slope: over the common denominator z k the fraction has slope m. */
  lemma ScaledTangent(p: OddPrime, l: int, m: int, k: int, n: int, d: int, z: int)
    requires Red(p, l * d) == Red(p, n) && Red(p, m * k) == Red(p, l)
    ensures Red(p, n * (z * z * (z * z))) == Red(p, m * (z * k) * (d * (z * z * z)))
  {
    hide *;
    CongMul(p, l * d, n, z * z * (z * z));
    CongMul(p, m * k, l, z * (d * (z * z * z)));
    ScaledTangentProduct(l, m, k, d, z);
  }

  lemma ScaledTangentProduct(l: int, m: int, k: int, d: int, z: int)
    ensures l * d * (z * z * (z * z)) == l * (z * (d * (z * z * z)))
    ensures m * k * (z * (d * (z * z * z))) == m * (z * k) * (d * (z * z * z))
  {
    var t := z * z * z;
    assert z * z * (z * z) == z * t;
  }

  /** The tangent at P continued over the common denominator of P and a second
      triple whose denominator is k: the point of slope l / k instead of l. */
  lemma TangentEpilogue(E: Curve, P: Jacobian, k: nat, m: nat)
    requires Valid(E) && Canonical(E.p, P) && P.Z != 0 && IsResidue(E.p, k) && k != 0 && IsResidue(E.p, m)
    requires var A := Value(E.p, P);
             A.y != 0 ==> Mul(E.p, m, k) == TangentSlope(E, A.x, A.y)
    ensures var A, D := Value(E.p, P), P.Z * k;
            var S := Epilogue(E.p, Red(E.p, A.x * (D * D)), Red(E.p, A.x * (D * D)), Red(E.p, A.y * (D * D * D)), Red(E.p, D),
                              TangentNumerator(E.p, E.a, P), TangentDenominator(E.p, P));
            Value(E.p, S) == if A.y == 0 then Infinity else LinePoint(E.p, m, A.x, A.y, A.x)
  {
    hide Red, Mul, Value, Epilogue, TangentNumerator, TangentDenominator, TangentSlope, LinePoint;
    var p, A, z, D := E.p, Value(E.p, P), P.Z, P.Z * k;
    TangentValue(E, P);
    DenominatorNonzero(p, A.y, z, k);
    if A.y == 0 {
      EpilogueZero(p, Chord(Red(p, A.x * (D * D)), Red(p, A.y * (D * D * D)), Red(p, A.x * (D * D)), Red(p, D),
                            TangentNumerator(p, E.a, P), TangentDenominator(p, P)));
    } else {
      var l := TangentSlope(E, A.x, A.y);
      TangentSlopeQuotient(E, A.x, A.y);
      MulRedProduct(p, m, k, l);
      ScaledTangent(p, l, m, k, 3 * A.x * A.x + E.a, A.y + A.y, z);
      EpilogueValue(p, A.x, A.x, A.y, D, m, (A.y + A.y) * (z * z * z));
    }
  }

  lemma MulRedProduct(p: OddPrime, m: nat, k: nat, l: nat)
    requires Mul(p, m, k) == l && IsResidue(p, l)
    ensures Red(p, m * k) == Red(p, l)
  {
    hide Red;
    Reduced(p, l);
  }

  lemma DenominatorNonzero(p: OddPrime, y: nat, z: nat, k: nat)
    requires IsResidue(p, y) && IsResidue(p, z) && z != 0 && IsResidue(p, k) && k != 0
    ensures Red(p, z * k) != 0
    ensures Red(p, (y + y) * (z * z * z)) == 0 <==> y == 0
  {
    hide Red;
    Reduced(p, z);
    Reduced(p, k);
    Reduced(p, 0);
    ZeroProduct(p, z, k);
    ZeroProduct(p, y + y, z * z * z);
    ZeroProduct(p, z * z, z);
    ZeroProduct(p, z, z);
    if y != 0 {
      DoubleNonzero(p, y);
    }
  }

  /** ecc_weierstrass_double computes the group law's doubling on every triple,
      infinity and points of order two included. */
  lemma DoublePointValue(E: Curve, P: Jacobian)
    requires Valid(E) && Canonical(E.p, P)
    ensures Value(E.p, DoublePoint(E.p, E.a, P)) == Plus(E, Value(E.p, P), Value(E.p, P))
  {
    hide Red, Mul, Value, Epilogue, TangentNumerator, TangentDenominator, LinePoint, TangentSlope, Scaled, RedTriple;
    var p := E.p;
    if P.Z == 0 {
      EpilogueZero(p, Chord(P.X, P.Y, P.X, 0, TangentNumerator(p, E.a, P), TangentDenominator(p, P)));
    } else {
      var A := Value(p, P);
      var l := if A.y == 0 then 0 else TangentSlope(E, A.x, A.y);
      ScaledValue(p, P);
      MulOne(p, l);
      assert P.Z * 1 == P.Z;
      TangentEpilogue(E, P, 1, l);
      DoubleInputs(p, A.x, A.y, P.Z);
    }
  }

  lemma DoubleInputs(p: OddPrime, x: int, y: int, z: int)
    ensures RedTriple(p, Scaled(x, y, z)) == Jacobian(Red(p, x * (z * z)), Red(p, y * (z * z * z)), Red(p, z))
  {
    hide Red;
  }

  // ----- general addition

  /** The condition under which ecc_weierstrass_add_general is right.  Two
      equal points other than infinity and those of order two are doubled with
      P's tangent, whose fraction is over P's denominator, but continued over
      the common denominator of P and Q.  That is harmless when Q.Z is one, when
      the tangent is horizontal, and when Q.Z is minus one and doubling keeps
      the x-coordinate. */
  predicate GeneralAdditionIsRight(E: Curve, P: Jacobian, Q: Jacobian)
    requires Canonical(E.p, P) && Canonical(E.p, Q)
  {
    var A := Value(E.p, P);
    (A.Affine? && A == Value(E.p, Q) && A.y != 0) ==>
      var l := TangentSlope(E, A.x, A.y);
      Q.Z == 1 || l == 0 || (Q.Z == E.p - 1 && Red(E.p, l * l) == Red(E.p, 3 * A.x))
  }

  predicate GeneralAdditionAgrees(E: Curve, P: Jacobian, Q: Jacobian)
    requires Valid(E) && Canonical(E.p, P) && Canonical(E.p, Q)
  {
    Value(E.p, AddGeneral(E.p, E.a, P, Q)) == Plus(E, Value(E.p, P), Value(E.p, Q))
  }

  /** Two equal finite points give the point of slope l / Q.Z on P's tangent. */
  lemma AddGeneralEqual(E: Curve, P: Jacobian, Q: Jacobian)
    requires Valid(E) && Canonical(E.p, P) && Canonical(E.p, Q) && P.Z != 0 && Q.Z != 0
    requires Value(E.p, P) == Value(E.p, Q)
    ensures var A := Value(E.p, P);
            Value(E.p, AddGeneral(E.p, E.a, P, Q)) ==
              if A.y == 0 then Infinity
              else LinePoint(E.p, Div(E.p, TangentSlope(E, A.x, A.y), Q.Z), A.x, A.y, A.x)
  {
    hide Red, Mul, Value, Prologue, Epilogue, TangentNumerator, TangentDenominator, LinePoint, TangentSlope, ScaledChord, RedChord;
    var p, A := E.p, Value(E.p, P);
    var m := if A.y == 0 then 0 else Div(p, TangentSlope(E, A.x, A.y), Q.Z);
    PrologueValue(p, P, Q);
    VerticalChord(p, A.x, A.y, A.y, P.Z * Q.Z);
    ChordParts(p, A.x, A.y, P.Z * Q.Z);
    TangentEpilogue(E, P, Q.Z, m);
    NormalisedValue(p);
  }

  lemma ChordParts(p: OddPrime, x: int, y: int, D: int)
    ensures var c := RedChord(p, ScaledChord(x, y, x, y, D));
            c.Px == c.Qx == Red(p, x * (D * D)) && c.Py == Red(p, y * (D * D * D)) && c.denom == Red(p, D)
  {
    hide Red;
  }

  lemma NormalisedValue(p: OddPrime)
    ensures Value(p, Jacobian(0, 0, 0)) == Infinity
    ensures forall S :: Canonical(p, S) && S.Z == 0 ==> Value(p, S) == Infinity
  {
  }

  /** In every other case the general addition is the group law. */
  lemma AddGeneralUnequal(E: Curve, P: Jacobian, Q: Jacobian)
    requires Valid(E) && Canonical(E.p, P) && Canonical(E.p, Q)
    requires P.Z == 0 || Q.Z == 0 || Value(E.p, P) != Value(E.p, Q)
    ensures Value(E.p, AddGeneral(E.p, E.a, P, Q)) == Plus(E, Value(E.p, P), Value(E.p, Q))
  {
    hide Red, Mul, Value, Prologue, Epilogue, TangentNumerator, TangentDenominator, Plus, ScaledChord, RedChord;
    var p := E.p;
    NormalisedValue(p);
    if P.Z == 0 || Q.Z == 0 {
      PlusInfinity(E, Value(p, P));
      PlusInfinity(E, Value(p, Q));
    } else {
      var A, B := Value(p, P), Value(p, Q);
      PrologueValue(p, P, Q);
      if A.x != B.x {
        ChordValue(E, A, B, P.Z * Q.Z);
      } else {
        VerticalChord(p, A.x, A.y, B.y, P.Z * Q.Z);
        EpilogueZero(p, Prologue(p, P, Q));
        PlusVertical(E, A, B);
      }
    }
  }

  lemma PlusInfinity(E: Curve, A: Point)
    requires InField(E, A)
    ensures Plus(E, A, Infinity) == A == Plus(E, Infinity, A)
  {
  }

  /** The points of slopes m and l on lines through (x, y), tangent there,
      coincide exactly when m = l or m = -l keeps the x-coordinate. */
  lemma SameLinePoint(p: OddPrime, l: nat, m: nat, x: nat, y: nat)
    requires IsResidue(p, l) && IsResidue(p, m) && IsResidue(p, x) && IsResidue(p, y)
    ensures LinePoint(p, m, x, y, x) == LinePoint(p, l, x, y, x) <==>
            m == l || (Red(p, m + l) == 0 && Red(p, l * l) == Red(p, 3 * x))
  {
    hide Red, LinePoint, LineX, LineY;
    LinePointReduced(p, l, x, y, x);
    LinePointReduced(p, m, x, y, x);
    var u, v := LineX(l, x, x), LineX(m, x, x);
    SameLineX(p, l, m, x);
    if Red(p, m + l) == 0 {
      SameLineY(p, l, m, x, y);
    }
    Reduced(p, l);
    Reduced(p, m);
    CongSub(p, m, l);
  }

  lemma SameLineX(p: OddPrime, l: int, m: int, x: int)
    ensures Red(p, LineX(m, x, x)) == Red(p, LineX(l, x, x)) <==> Red(p, m - l) == 0 || Red(p, m + l) == 0
  {
    hide Red, LineX;
    LineXDifference(l, m, x);
    CongSub(p, LineX(m, x, x), LineX(l, x, x));
    ZeroProduct(p, m - l, m + l);
  }

  lemma LineXDifference(l: int, m: int, x: int)
    ensures LineX(m, x, x) - LineX(l, x, x) == (m - l) * (m + l)
  {
  }

  /** With opposite slopes and so equal x-coordinates, the y-coordinates agree
      exactly when the slope vanishes or the x-coordinate is kept. */
  lemma SameLineY(p: OddPrime, l: int, m: int, x: int, y: int)
    requires Red(p, LineX(m, x, x)) == Red(p, LineX(l, x, x))
    ensures Red(p, m + l) == 0 ==>
              (Red(p, LineY(m, x, y, LineX(m, x, x))) == Red(p, LineY(l, x, y, LineX(l, x, x)))
               <==> Red(p, m - l) == 0 || Red(p, l * l) == Red(p, 3 * x))
  {
    hide *;
    if Red(p, m + l) == 0 {
      var u, v := LineX(l, x, x), LineX(m, x, x);
      LineYDifference(l, m, x, y, u, v);
      CongSub(p, v, u);
      CongSub(p, LineY(m, x, y, v), LineY(l, x, y, u));
      ZeroProduct(p, m + l, x - v);
      ZeroSum(p, (m + l) * (x - v), l * (v - u) + (l + l) * (u - x));
      ZeroProduct(p, l, v - u);
      ZeroSum(p, l * (v - u), (l + l) * (u - x));
      ZeroProduct(p, l + l, u - x);
      TwiceZero(p, l, m);
      KeepsX(l, x);
      CongSub(p, l * l, 3 * x);
    }
  }

  lemma LineYDifference(l: int, m: int, x: int, y: int, u: int, v: int)
    ensures LineY(m, x, y, v) - LineY(l, x, y, u) == (m + l) * (x - v) + (l * (v - u) + (l + l) * (u - x))
  {
  }

  lemma KeepsX(l: int, x: int)
    ensures LineX(l, x, x) - x == l * l - 3 * x
  {
  }

  lemma TwiceZero(p: OddPrime, l: int, m: int)
    requires Red(p, m + l) == 0
    ensures Red(p, l + l) == 0 <==> Red(p, m - l) == 0
  {
    hide Red;
    ZeroSum(p, m + l, -(l + l));
    CongSub(p, 0, l + l);
    Reduced(p, 0);
    assert m + l + -(l + l) == m - l && 0 - (l + l) == -(l + l);
  }

  /** ecc_weierstrass_add_general computes the group law exactly under
      `GeneralAdditionIsRight`. */
  lemma AddGeneralValue(E: Curve, P: Jacobian, Q: Jacobian)
    requires Valid(E) && Canonical(E.p, P) && Canonical(E.p, Q)
    ensures GeneralAdditionAgrees(E, P, Q) <==> GeneralAdditionIsRight(E, P, Q)
    ensures AddGeneral(E.p, E.a, P, Q).Z == 0 ==> AddGeneral(E.p, E.a, P, Q) == Jacobian(0, 0, 0)
  {
    hide Red, Mul, Value, Prologue, Epilogue, TangentNumerator, TangentDenominator, LinePoint, TangentSlope, Plus;
    var A := Value(E.p, P);
    if P.Z == 0 || Q.Z == 0 || A != Value(E.p, Q) {
      AddGeneralUnequal(E, P, Q);
    } else {
      AddGeneralEqual(E, P, Q);
      PlusSelf(E, A);
      if A.y != 0 {
        var l := TangentSlope(E, A.x, A.y);
        var m := Div(E.p, l, Q.Z);
        SameLinePoint(E.p, l, m, A.x, A.y);
        QuotientOfSlope(E.p, l, Q.Z);
      }
    }
  }

  lemma PlusSelf(E: Curve, A: Point)
    requires InField(E, A) && A.Affine?
    ensures Plus(E, A, A) == if A.y == 0 then Infinity else LinePoint(E.p, TangentSlope(E, A.x, A.y), A.x, A.y, A.x)
  {
  }

  /** When the quotient l / z is l itself, or is -l. */
  lemma QuotientOfSlope(p: OddPrime, l: nat, z: nat)
    requires IsResidue(p, l) && IsResidue(p, z) && z != 0
    ensures Div(p, l, z) == l <==> l == 0 || z == 1
    ensures Red(p, Div(p, l, z) + l) == 0 <==> l == 0 || z == p - 1
  {
    hide Red, Mul, Div;
    var m := Div(p, l, z);
    FixedByFactor(p, m, l, z);
    NegatedFactor(p, m, l, z);
  }

  lemma FixedByFactor(p: OddPrime, m: nat, l: nat, z: nat)
    requires IsResidue(p, m) && IsResidue(p, l) && IsResidue(p, z) && z != 0 && Mul(p, m, z) == l
    ensures m == l <==> m == 0 || z == 1
  {
    hide Red;
    assert m * z - m == m * (z - 1);
    CongSub(p, m * z, m);
    ZeroProduct(p, m, z - 1);
    Reduced(p, m);
    Reduced(p, z - 1);
  }

  lemma NegatedFactor(p: OddPrime, m: nat, l: nat, z: nat)
    requires IsResidue(p, m) && IsResidue(p, l) && IsResidue(p, z) && z != 0 && Mul(p, m, z) == l
    ensures Red(p, m + l) == 0 <==> m == 0 || z == p - 1
    ensures m == 0 <==> l == 0
  {
    hide Red;
    ZeroProduct(p, m, z);
    Reduced(p, z);
    Reduced(p, m);
    assert m + m * z == m * (z + 1);
    AddHom(p, m, m * z);
    AddHom(p, m, l);
    Reduced(p, l);
    ZeroProduct(p, m, z + 1);
    RedPlusMultiple(p, 1, 0);
    Reduced(p, 0);
    if z + 1 < p {
      Reduced(p, z + 1);
    }
  }

  const SEVEN: OddPrime := 7
  const EXAMPLE_CURVE := Curve(SEVEN, 1, 1)
  const EXAMPLE_POINT := Jacobian(0, 1, 2)

  /** On y^2 = x^3 + x + 1 over the field of seven elements, the point (0, 1)
      written with Z = 2 and added to itself is not doubled. */
  lemma AddGeneralWrongExample()
    ensures Valid(EXAMPLE_CURVE) && Canonical(SEVEN, EXAMPLE_POINT) && PointValid(EXAMPLE_CURVE, EXAMPLE_POINT)
    ensures !GeneralAdditionAgrees(EXAMPLE_CURVE, EXAMPLE_POINT, EXAMPLE_POINT)
  {
    ExamplePoint();
    hide Red, Mul, Value, TangentSlope, AddGeneral, Plus, PointValid;
    AddGeneralValue(EXAMPLE_CURVE, EXAMPLE_POINT, EXAMPLE_POINT);
    ValueScaled(SEVEN, 0, 1, 2);
    PointValidValue(EXAMPLE_CURVE, EXAMPLE_POINT);
    TangentSlopeQuotient(EXAMPLE_CURVE, 0, 1);
  }

  lemma ExamplePoint()
    ensures RedTriple(SEVEN, Scaled(0, 1, 2)) == EXAMPLE_POINT
    ensures Red(SEVEN, 0) == 0 && Red(SEVEN, 1) == 1 && Red(SEVEN, 2) == 2
    ensures Residual(1, 1, 0, 1) == 0
  {
    RedPlusMultiple(SEVEN, 1, 1);
  }
}
