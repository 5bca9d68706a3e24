/**
 What the Jacobian formulas make of points at infinity.

 Infinity first comes up as a triple (t^2 : t^3 : 0) with t nonzero.  Adding such
 a triple to a finite one gives (0 : 0 : 0), and the program's assertion refuses to
 add anything to that.
 */
module JacobianInfinity {
  import opened PrimeField
  import opened Weierstrass
  import opened JacobianFormulas
  import opened JacobianGroup

  const ZERO := Jacobian(0, 0, 0)

  /** At infinity only as a scaling of (1 : 1 : 0). */
  ghost predicate Proper(p: OddPrime, P: Jacobian) {
    P.Z == 0 ==> exists t: nat :: t != 0 && CuspAt(p, P, t)
  }

  /** 4 a^3 + 27 b^2 is not zero in the field. */
  predicate Nonsingular(E: Curve) {
    Red(E.p, Discriminant(E.a, E.b)) != 0
  }

  function Discriminant(a: int, b: int): int {
    4 * (a * (a * a)) + 27 * (b * b)
  }

  // ----- a tangent at every point

  lemma DiscriminantParts(a: int, b: int, x: int)
    ensures var u := x * x * x + a * x;
      Discriminant(a, b) == 27 * ((b - u) * (u + b)) + (9 * (x * x * (x * x)) + 15 * (a * (x * x)) + 4 * (a * a)) * (3 * (x * x) + a)
  {
    var s := x * x;
    var u := x * x * x + a * x;
    assert (b - u) * (u + b) == b * b - u * u;
    CubicSquared(a, x, s);
    TangentFactor(a, s);
  }

  lemma CubicSquared(a: int, x: int, s: int)
    requires s == x * x
    ensures var u := x * x * x + a * x;
      u * u == s * (s * s) + 2 * (a * (s * s)) + a * (a * s)
  {
    var v := s + a;
    assert x * x * x + a * x == x * v;
    assert x * v * (x * v) == s * (v * v);
    assert v * v == s * s + 2 * (a * s) + a * a;
  }

  lemma TangentFactor(a: int, s: int)
    ensures (9 * (s * s) + 15 * (a * s) + 4 * (a * a)) * (3 * s + a)
         == 27 * (s * (s * s) + 2 * (a * (s * s)) + a * (a * s)) + 4 * (a * (a * a))
  {
  }

  /** On a nonsingular curve the tangent's numerator and y do not both vanish. */
  lemma TangentExists(E: Curve, A: Point)
    requires Valid(E) && Nonsingular(E) && OnCurve(E, A) && A.Affine? && A.y == 0
    ensures Red(E.p, 3 * A.x * A.x + E.a) != 0
  {
    hide Red, Discriminant;
    var p := E.p;
    var a: int, b: int, x: int := E.a, E.b, A.x;
    var u := x * x * x + a * x;
    var f, g := b - u, 9 * (x * x * (x * x)) + 15 * (a * (x * x)) + 4 * (a * a);
    var d := 3 * (x * x) + a;
    assert Residual(a, b, x, 0) == u + b && 3 * x * x + a == d;
    if Red(p, d) == 0 {
      DiscriminantParts(a, b, x);
      ZeroProduct(p, f, u + b);
      ZeroProduct(p, 27, f * (u + b));
      ZeroProduct(p, g, d);
      ZeroSum(p, 27 * (f * (u + b)), g * d);
    }
  }

  // ----- how infinity comes up

  lemma VerticalZ(Px: int, Qx: int, Py: int, cz: int, ln: int)
    ensures var t := 0 - ln;
      EpilogueZ(Px, Qx, Py, cz, ln, 0) == Jacobian(t * t, t * t * t, 0)
  {
    var t := 0 - ln;
    assert t * t == ln * ln;
    assert ln * (0 - ln * ln) == ln * ln * t;
  }

  /** The third point of a vertical line: a cusp, with the numerator's negation for
      its root. */
  lemma EpilogueVertical(p: OddPrime, Px: nat, Qx: nat, Py: nat, cz: nat, ln: nat)
    requires IsResidue(p, Px) && IsResidue(p, Qx) && IsResidue(p, Py) && IsResidue(p, cz)
    requires IsResidue(p, ln) && ln != 0
    ensures Proper(p, Epilogue(p, Px, Qx, Py, cz, ln, 0))
  {
    hide Red, Mul, Epilogue, EpilogueZ, Sub, Proper;
    Reduced(p, Px);
    Reduced(p, Qx);
    Reduced(p, Py);
    Reduced(p, cz);
    Reduced(p, ln);
    Reduced(p, 0);
    EpilogueHom(p, Px, Qx, Py, cz, ln, 0);
    VerticalZ(Px, Qx, Py, cz, ln);
    CongSub(p, 0, ln);
    CuspOf(p, 0 - ln);
  }

  lemma CuspOf(p: OddPrime, t: int)
    requires Red(p, t) != 0
    ensures Proper(p, RedTriple(p, Jacobian(t * t, t * t * t, 0)))
  {
    hide Red;
    MulHom(p, t, t);
    MulHom(p, t * t, t);
    assert CuspAt(p, RedTriple(p, Jacobian(t * t, t * t * t, 0)), Red(p, t));
  }

  /** Doubling a finite point of a nonsingular curve. */
  lemma DoubleProper(E: Curve, P: Jacobian)
    requires Valid(E) && Nonsingular(E) && Canonical(E.p, P) && P.Z != 0 && OnCurve(E, Value(E.p, P))
    ensures Proper(E.p, DoublePoint(E.p, E.a, P))
  {
    hide Red, Mul, Value, Epilogue, TangentNumerator, TangentDenominator, LinePoint, TangentSlope, Nonsingular, Residual;
    var p, A := E.p, Value(E.p, P);
    DoublePointValue(E, P);
    if A.y != 0 {
      DoubleFinite(E, A);
    } else {
      TangentValue(E, P);
      TangentExists(E, A);
      VerticalTangent(p, A.x, E.a, P.Z);
      EpilogueVertical(p, P.X, P.X, P.Y, P.Z, TangentNumerator(p, E.a, P));
    }
  }

  lemma DoubleFinite(E: Curve, A: Point)
    requires InField(E, A) && A.Affine? && A.y != 0
    ensures Plus(E, A, A).Affine?
  {
    hide Red, Mul, TangentSlope;
  }

  lemma VerticalTangent(p: OddPrime, x: int, a: int, z: nat)
    requires IsResidue(p, z) && z != 0 && Red(p, 3 * x * x + a) != 0
    ensures Red(p, (0 + 0) * (z * z * z)) == 0
    ensures Red(p, (3 * x * x + a) * (z * z * (z * z))) != 0
  {
    hide Red;
    Reduced(p, 0);
    Reduced(p, z);
    ZeroProduct(p, z, z);
    ZeroProduct(p, z * z, z * z);
    ZeroProduct(p, 3 * x * x + a, z * z * (z * z));
  }

  /** Adding two finite points. */
  lemma AddProper(p: OddPrime, P: Jacobian, Q: Jacobian)
    requires Canonical(p, P) && Canonical(p, Q) && P.Z != 0 && Q.Z != 0 && Addable(p, P, Q)
    ensures Proper(p, AddPoints(p, P, Q))
  {
    hide Red, Mul, Epilogue, Prologue, Addable, AddPoints, Proper;
    var c := Prologue(p, P, Q);
    AddedZ(p, P, Q);
    if AddPoints(p, P, Q).Z == 0 {
      if c.denom == 0 {
        NoZeroDivisors(p, P.Z, Q.Z);
      }
      NoZeroDivisors(p, c.denom, c.ld);
      EpilogueVertical(p, c.Px, c.Qx, c.Py, c.denom, c.ln);
    } else {
      FiniteProper(p, AddPoints(p, P, Q));
    }
  }

  lemma FiniteProper(p: OddPrime, P: Jacobian)
    requires P.Z != 0
    ensures Proper(p, P)
  {
  }

  lemma AddedZ(p: OddPrime, P: Jacobian, Q: Jacobian)
    requires Addable(p, P, Q)
    ensures var c := Prologue(p, P, Q);
      && IsResidue(p, c.Px) && IsResidue(p, c.Py) && IsResidue(p, c.Qx) && IsResidue(p, c.denom) && IsResidue(p, c.ln)
      && IsResidue(p, c.ld) && c.ln != 0
      && c.denom == Mul(p, P.Z, Q.Z) && AddPoints(p, P, Q).Z == Mul(p, c.denom, c.ld)
      && AddPoints(p, P, Q) == Epilogue(p, c.Px, c.Qx, c.Py, c.denom, c.ln, c.ld)
  {
    hide Red, Mul;
  }

  // ----- what becomes of it

  /** The assertion refuses (0 : 0 : 0) next to anything. */
  lemma ZeroRefused(p: OddPrime, Q: Jacobian)
    ensures !Addable(p, ZERO, Q) && !Addable(p, Q, ZERO)
  {
    MulZero(p, 0);
    MulZero(p, Q.Y);
    MulZero(p, Mul(p, Mul(p, Q.Z, Q.Z), Q.Z));
    Reduced(p, 0);
    hide Mul, Red;
  }

  lemma CuspEpilogue(s: int)
    ensures EpilogueZ(s * s, 0, s * s * s, 0, 0 - s * s * s, 0 - s * s) == ZERO
    ensures EpilogueZ(0, s * s, 0, 0, s * s * s, s * s) == ZERO
  {
    var q, r := s * s, s * s * s;
    assert r * r == q * q * q;
    assert (0 - r) * (0 - r) == r * r && (0 - q) * (0 - q) == q * q;
    assert (0 - r) * (q * q * q) == (0 - q) * (q * q) * r;
    assert q * q * (q + 0) == q * q * q;
  }

  lemma CuspPrologue(t: int, Q: Jacobian)
    ensures var C, s := Jacobian(t * t, t * t * t, 0), t * Q.Z;
      && PrologueZ(C, Q) == Chord(s * s, s * s * s, 0, 0, 0 - s * s * s, 0 - s * s)
      && PrologueZ(Q, C) == Chord(0, 0, s * s, 0, s * s * s, s * s)
  {
    var z := Q.Z;
    var s := t * z;
    ScaledProducts(t, z);
    assert Q.X * (0 * 0) == 0 && Q.Y * (0 * 0 * 0) == 0;
  }

  lemma ScaledProducts(t: int, z: int)
    ensures t * t * (z * z) == t * z * (t * z)
    ensures t * t * t * (z * z * z) == t * z * (t * z) * (t * z)
  {
    var q, r := t * t, z * z;
    assert q * r == t * z * (t * z);
    assert q * t * (r * z) == q * r * (t * z);
  }

  /** A proper infinity and a finite point are accepted in either order, and their
      sum is (0 : 0 : 0). */
  lemma AddToInfinity(p: OddPrime, C: Jacobian, Q: Jacobian)
    requires Canonical(p, C) && Canonical(p, Q) && C.Z == 0 && Q.Z != 0 && Proper(p, C)
    ensures Addable(p, C, Q) && AddPoints(p, C, Q) == ZERO
    ensures Addable(p, Q, C) && AddPoints(p, Q, C) == ZERO
  {
    var t: nat :| t != 0 && CuspAt(p, C, t);
    hide Red, Mul, Prologue, Epilogue, PrologueZ, EpilogueZ, RedTriple;
    var I, s := Jacobian(t * t, t * t * t, 0), t * Q.Z;
    CuspReduced(p, C, t);
    SelfReduced(p, Q);
    PrologueHom(p, I, Q);
    PrologueHom(p, Q, I);
    CuspPrologue(t, Q);
    CubeNonzero(p, t, Q.Z);
    CuspEpilogue(s);
    EpilogueHom(p, s * s, 0, s * s * s, 0, 0 - s * s * s, 0 - s * s);
    EpilogueHom(p, 0, s * s, 0, 0, s * s * s, s * s);
    SelfReduced(p, ZERO);
    Reduced(p, 0);
  }

  lemma CuspReduced(p: OddPrime, C: Jacobian, t: nat)
    requires C.Z == 0 && CuspAt(p, C, t)
    ensures C == RedTriple(p, Jacobian(t * t, t * t * t, 0))
  {
    hide Red;
    Reduced(p, t);
    Reduced(p, 0);
    MulHom(p, t, t);
    MulHom(p, t * t, t);
  }

  lemma SelfReduced(p: OddPrime, Q: Jacobian)
    requires Canonical(p, Q)
    ensures RedTriple(p, Q) == Q
  {
    hide Red;
    Reduced(p, Q.X);
    Reduced(p, Q.Y);
    Reduced(p, Q.Z);
  }

  lemma CubeNonzero(p: OddPrime, t: nat, z: nat)
    requires IsResidue(p, t) && IsResidue(p, z) && t != 0 && z != 0
    ensures var s := t * z; Red(p, s * s * s) != 0 && Red(p, 0 - s * s * s) != 0
  {
    hide Red;
    var s := t * z;
    Reduced(p, t);
    Reduced(p, z);
    ZeroProduct(p, t, z);
    ZeroProduct(p, s, s);
    ZeroProduct(p, s * s, s);
    CongSub(p, 0, s * s * s);
    Reduced(p, 0);
  }
}
