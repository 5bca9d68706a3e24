/**
 The division-free formulas for Weierstrass curves, and the proof that they
 compute the affine group law.

 Every triple with nonzero Z is the reduction of `Scaled(x, y, z)` for its
 affine value (x, y) and its own z.  The formulas, read over the integers, map
 scaled triples to scaled triples; reduction modulo p carries this to the field.
 */
module JacobianFormulas {
  import opened PrimeField
  import opened Weierstrass

  datatype Jacobian = Jacobian(X: int, Y: int, Z: int)

  /** Two points over a common denominator, and the slope of the line through
      them as a fraction ln / ld. */
  datatype Chord = Chord(Px: int, Py: int, Qx: int, denom: int, ln: int, ld: int)

  predicate Canonical(p: OddPrime, P: Jacobian) {
    IsResidue(p, P.X) && IsResidue(p, P.Y) && IsResidue(p, P.Z)
  }

  // ----- the formulas

  function Epilogue(p: OddPrime, Px: int, Qx: int, Py: int, commonZ: int, ln: int, ld: int): (S: Jacobian)
    ensures Canonical(p, S)
  {
    var ln2 := Mul(p, ln, ln);
    var ld2 := Mul(p, ld, ld);
    var ld3 := Mul(p, ld, ld2);
    var X := Sub(p, ln2, Mul(p, ld2, Add(p, Px, Qx)));
    var xdiff := Sub(p, Mul(p, ld2, Px), X);
    var Y := Sub(p, Mul(p, ln, xdiff), Mul(p, ld3, Py));
    Jacobian(X, Y, Mul(p, commonZ, ld))
  }

  function Prologue(p: OddPrime, P: Jacobian, Q: Jacobian): Chord {
    var Pz2 := Mul(p, P.Z, P.Z);
    var Pz3 := Mul(p, Pz2, P.Z);
    var Qz2 := Mul(p, Q.Z, Q.Z);
    var Qz3 := Mul(p, Qz2, Q.Z);
    var Px := Mul(p, P.X, Qz2);
    var Py := Mul(p, P.Y, Qz3);
    var Qx := Mul(p, Q.X, Pz2);
    var Qy := Mul(p, Q.Y, Pz3);
    Chord(Px, Py, Qx, Mul(p, P.Z, Q.Z), Sub(p, Qy, Py), Sub(p, Qx, Px))
  }

  /** What ecc_weierstrass_add asserts of its arguments. */
  predicate Addable(p: OddPrime, P: Jacobian, Q: Jacobian) {
    Prologue(p, P, Q).ln != 0
  }

  function AddPoints(p: OddPrime, P: Jacobian, Q: Jacobian): (S: Jacobian)
    requires Addable(p, P, Q)
    ensures Canonical(p, S)
  {
    var c := Prologue(p, P, Q);
    Epilogue(p, c.Px, c.Qx, c.Py, c.denom, c.ln, c.ld)
  }

  function TangentNumerator(p: OddPrime, a: int, P: Jacobian): nat {
    var X2 := Mul(p, P.X, P.X);
    var threeX2 := Add(p, Add(p, X2, X2), X2);
    var Z2 := Mul(p, P.Z, P.Z);
    Add(p, threeX2, Mul(p, a, Mul(p, Z2, Z2)))
  }

  function TangentDenominator(p: OddPrime, P: Jacobian): nat {
    Add(p, P.Y, P.Y)
  }

  function DoublePoint(p: OddPrime, a: int, P: Jacobian): (D: Jacobian)
    ensures Canonical(p, D)
  {
    Epilogue(p, P.X, P.X, P.Y, P.Z, TangentNumerator(p, a, P), TangentDenominator(p, P))
  }

  function AddGeneral(p: OddPrime, a: int, P: Jacobian, Q: Jacobian): (S: Jacobian)
    requires Canonical(p, P) && Canonical(p, Q)
    ensures Canonical(p, S)
  {
    var c := Prologue(p, P, Q);
    var equal := c.ld == 0 && c.ln == 0;
    var ln := if equal then TangentNumerator(p, a, P) else c.ln;
    var ld := if equal then TangentDenominator(p, P) else c.ld;
    var S := Epilogue(p, c.Px, c.Qx, c.Py, c.denom, ln, ld);
    var S := if P.Z == 0 then Q else S;
    var S := if Q.Z == 0 then P else S;
    if S.Z == 0 then Jacobian(0, 0, 0) else S
  }

  /** Y^2 = X^3 + a X Z^4 + b Z^6. */
  predicate PointValid(E: Curve, P: Jacobian) {
    var p := E.p;
    var z2 := Mul(p, P.Z, P.Z);
    var z4 := Mul(p, z2, z2);
    var x3 := Mul(p, Mul(p, P.X, P.X), P.X);
    var rhs := Add(p, Add(p, x3, Mul(p, Mul(p, E.a, z4), P.X)), Mul(p, E.b, Mul(p, z2, z4)));
    Mul(p, P.Y, P.Y) == rhs
  }

  // ----- what a triple stands for

  function Value(p: OddPrime, P: Jacobian): (A: Point)
    requires Canonical(p, P)
    ensures P.Z == 0 <==> A.Infinity?
    ensures A.Affine? ==> IsResidue(p, A.x) && IsResidue(p, A.y)
  {
    if P.Z == 0 then Infinity else
      PowersNonzero(p, P.Z);
      var z2 := Mul(p, P.Z, P.Z);
      Affine(Div(p, P.X, z2), Div(p, P.Y, Mul(p, z2, P.Z)))
  }

  lemma PowersNonzero(p: OddPrime, z: nat)
    requires IsResidue(p, z) && z != 0
    ensures Mul(p, z, z) != 0 && Mul(p, Mul(p, z, z), z) != 0
  {
    hide *;
    if Mul(p, z, z) == 0 {
      NoZeroDivisors(p, z, z);
    } else if Mul(p, Mul(p, z, z), z) == 0 {
      NoZeroDivisors(p, Mul(p, z, z), z);
    }
  }

  function Scaled(x: int, y: int, z: int): Jacobian {
    Jacobian(x * (z * z), y * (z * z * z), z)
  }

  function RedTriple(p: OddPrime, P: Jacobian): (R: Jacobian)
    ensures Canonical(p, R)
  {
    Jacobian(Red(p, P.X), Red(p, P.Y), Red(p, P.Z))
  }

  function FieldScaled(p: OddPrime, x: int, y: int, z: int): Jacobian {
    var z2 := Mul(p, z, z);
    Jacobian(Mul(p, x, z2), Mul(p, y, Mul(p, z2, z)), z)
  }

  lemma ScaledHom(p: OddPrime, x: int, y: int, z: int)
    ensures FieldScaled(p, Red(p, x), Red(p, y), Red(p, z)) == RedTriple(p, Scaled(x, y, z))
  {
    Homomorphism(p);
    hide Red, Mul;
  }

  /** A finite triple is its affine value scaled by its own Z. */
  lemma ScaledValue(p: OddPrime, P: Jacobian)
    requires Canonical(p, P) && P.Z != 0
    ensures P == RedTriple(p, Scaled(Value(p, P).x, Value(p, P).y, P.Z))
  {
    hide Red, Mul, Div, RedTriple, Scaled;
    var A := Value(p, P);
    PowersNonzero(p, P.Z);
    Reduced(p, A.x);
    Reduced(p, A.y);
    Reduced(p, P.Z);
    ScaledHom(p, A.x, A.y, P.Z);
  }

  /** Scaling an affine point by anything nonzero gives a triple for it. */
  lemma ValueScaled(p: OddPrime, x: int, y: int, z: int)
    requires Red(p, z) != 0
    ensures Value(p, RedTriple(p, Scaled(x, y, z))) == Affine(Red(p, x), Red(p, y))
  {
    hide Red, Mul, Div, RedTriple, Scaled;
    ScaledHom(p, x, y, z);
    PowersNonzero(p, Red(p, z));
  }

  // ----- the formulas over the integers

  function EpilogueZ(Px: int, Qx: int, Py: int, commonZ: int, ln: int, ld: int): Jacobian {
    var X := ln * ln - ld * ld * (Px + Qx);
    Jacobian(X, ln * (ld * ld * Px - X) - ld * (ld * ld) * Py, commonZ * ld)
  }

  lemma EpilogueHom(p: OddPrime, Px: int, Qx: int, Py: int, cz: int, ln: int, ld: int)
    ensures Epilogue(p, Red(p, Px), Red(p, Qx), Red(p, Py), Red(p, cz), Red(p, ln), Red(p, ld))
         == RedTriple(p, EpilogueZ(Px, Qx, Py, cz, ln, ld))
  {
    hide IsResidue, Red, Add, Sub, Mul;
    Homomorphism(p);
  }

  function EpilogueX(Px: int, Qx: int, ln: int, ld: int): int {
    ln * ln - ld * ld * (Px + Qx)
  }

  function EpilogueY(Px: int, Py: int, ln: int, ld: int, X: int): int {
    ln * (ld * ld * Px - X) - ld * (ld * ld) * Py
  }

  lemma EpilogueParts(Px: int, Qx: int, Py: int, commonZ: int, ln: int, ld: int)
    ensures var X := EpilogueX(Px, Qx, ln, ld);
            EpilogueZ(Px, Qx, Py, commonZ, ln, ld) == Jacobian(X, EpilogueY(Px, Py, ln, ld, X), commonZ * ld)
  {
  }

  lemma EpilogueScaledX(x1: int, x2: int, D: int, l: int, w: int)
    ensures EpilogueX(x1 * (D * D), x2 * (D * D), l * D * w, w) == LineX(l, x1, x2) * ((D * w) * (D * w))
  {
    var t := (D * w) * (D * w);
    assert l * D * w * (l * D * w) == l * l * t;
    assert w * w * (x1 * (D * D) + x2 * (D * D)) == (x1 + x2) * t;
  }

  lemma EpilogueScaledY(x1: int, x3: int, y1: int, D: int, l: int, w: int)
    ensures EpilogueY(x1 * (D * D), y1 * (D * D * D), l * D * w, w, x3 * ((D * w) * (D * w)))
         == LineY(l, x1, y1, x3) * ((D * w) * (D * w) * (D * w))
  {
    var s := D * w;
    ScaledDifference(x1, x3, D, w);
    ProductOfCubes(D, w);
    ScaledLine(l, x1 - x3, y1, s, D * D * D, w * (w * w), l * D * w);
  }

  lemma ScaledDifference(x1: int, x3: int, D: int, w: int)
    ensures w * w * (x1 * (D * D)) - x3 * ((D * w) * (D * w)) == (x1 - x3) * ((D * w) * (D * w))
  {
    ProductSquared(D, w);
    var d, v := D * D, w * w;
    assert v * (x1 * d) == x1 * (d * v);
  }

  lemma ProductOfCubes(x: int, y: int)
    ensures x * x * x * (y * (y * y)) == (x * y) * (x * y) * (x * y)
  {
    var a, b := x * x, y * y;
    ProductSquared(x, y);
    assert a * x * (y * b) == a * b * (x * y);
  }

  lemma ScaledLine(l: int, d: int, y: int, s: int, D3: int, w3: int, ln: int)
    requires D3 * w3 == s * s * s && ln == l * s
    ensures ln * (d * (s * s)) - w3 * (y * D3) == (l * d - y) * (s * s * s)
  {
    var t := s * s;
    assert l * s * (d * t) == l * d * (t * s);
    assert w3 * (y * D3) == y * (D3 * w3);
  }

  /** With a slope over the common denominator D, the epilogue produces the
      third point of the line, scaled by D times the slope's denominator w. */
  lemma EpilogueScaled(x1: int, x2: int, y1: int, D: int, l: int, w: int)
    ensures EpilogueZ(x1 * (D * D), x2 * (D * D), y1 * (D * D * D), D, l * D * w, w)
         == Scaled(LineX(l, x1, x2), LineY(l, x1, y1, LineX(l, x1, x2)), D * w)
  {
    hide EpilogueX, EpilogueY, EpilogueZ, LineX, LineY;
    EpilogueParts(x1 * (D * D), x2 * (D * D), y1 * (D * D * D), D, l * D * w, w);
    EpilogueScaledX(x1, x2, D, l, w);
    EpilogueScaledY(x1, LineX(l, x1, x2), y1, D, l, w);
  }

  /** The value of the epilogue: infinity when the slope's denominator or the
      common one vanishes, and otherwise the third point of the line. */
  lemma EpilogueValue(p: OddPrime, x1: nat, x2: nat, y1: nat, D: int, l: nat, w: int)
    requires IsResidue(p, x1) && IsResidue(p, x2) && IsResidue(p, y1) && IsResidue(p, l)
    ensures var S := Epilogue(p, Red(p, x1 * (D * D)), Red(p, x2 * (D * D)), Red(p, y1 * (D * D * D)),
                              Red(p, D), Red(p, l * D * w), Red(p, w));
            && (S.Z == 0 <==> Red(p, D) == 0 || Red(p, w) == 0)
            && Value(p, S) == if S.Z == 0 then Infinity else LinePoint(p, l, x1, y1, x2)
  {
    hide *;
    EpilogueHom(p, x1 * (D * D), x2 * (D * D), y1 * (D * D * D), D, l * D * w, w);
    EpilogueScaled(x1, x2, y1, D, l, w);
    ZeroProduct(p, D, w);
    var x3 := LineX(l, x1, x2);
    var y3 := LineY(l, x1, y1, x3);
    RedTripleZ(p, x3, y3, D * w);
    if Red(p, D * w) != 0 {
      ValueScaled(p, x3, y3, D * w);
      LinePointReduced(p, l, x1, y1, x2);
    }
  }

  lemma RedTripleZ(p: OddPrime, x: int, y: int, z: int)
    ensures RedTriple(p, Scaled(x, y, z)).Z == Red(p, z)
    ensures Red(p, z) == 0 ==> Value(p, RedTriple(p, Scaled(x, y, z))) == Infinity
  {
    hide Red;
  }

  // ----- the prologue and the tangent over the integers

  function PrologueZ(P: Jacobian, Q: Jacobian): Chord {
    var Px, Py := P.X * (Q.Z * Q.Z), P.Y * (Q.Z * Q.Z * Q.Z);
    var Qx, Qy := Q.X * (P.Z * P.Z), Q.Y * (P.Z * P.Z * P.Z);
    Chord(Px, Py, Qx, P.Z * Q.Z, Qy - Py, Qx - Px)
  }

  function RedChord(p: OddPrime, c: Chord): Chord {
    Chord(Red(p, c.Px), Red(p, c.Py), Red(p, c.Qx), Red(p, c.denom), Red(p, c.ln), Red(p, c.ld))
  }

  lemma PrologueHom(p: OddPrime, P: Jacobian, Q: Jacobian)
    ensures Prologue(p, RedTriple(p, P), RedTriple(p, Q)) == RedChord(p, PrologueZ(P, Q))
  {
    hide IsResidue, Red, Add, Sub, Mul;
    Homomorphism(p);
  }

  function ScaledChord(x1: int, y1: int, x2: int, y2: int, D: int): Chord {
    Chord(x1 * (D * D), y1 * (D * D * D), x2 * (D * D), D, (y2 - y1) * (D * D * D), (x2 - x1) * (D * D))
  }

  lemma PrologueScaled(x1: int, y1: int, z1: int, x2: int, y2: int, z2: int)
    ensures PrologueZ(Scaled(x1, y1, z1), Scaled(x2, y2, z2)) == ScaledChord(x1, y1, x2, y2, z1 * z2)
  {
    var D := z1 * z2;
    PowersOfProduct(z1, z2);
    assert y2 * (D * D * D) - y1 * (D * D * D) == (y2 - y1) * (D * D * D);
    assert x2 * (D * D) - x1 * (D * D) == (x2 - x1) * (D * D);
    SwapFactors(x1, z1 * z1, z2 * z2);
    SwapFactors(x2, z2 * z2, z1 * z1);
    SwapFactors(y1, z1 * z1 * z1, z2 * z2 * z2);
    SwapFactors(y2, z2 * z2 * z2, z1 * z1 * z1);
  }

  lemma SwapFactors(x: int, u: int, v: int)
    ensures x * u * v == x * (u * v) == x * (v * u)
  {
  }

  lemma PowersOfProduct(z1: int, z2: int)
    ensures (z1 * z1) * (z2 * z2) == (z1 * z2) * (z1 * z2)
    ensures (z1 * z1 * z1) * (z2 * z2 * z2) == (z1 * z2) * (z1 * z2) * (z1 * z2)
  {
  }

  function TangentNumeratorZ(a: int, P: Jacobian): int {
    P.X * P.X + P.X * P.X + P.X * P.X + a * (P.Z * P.Z * (P.Z * P.Z))
  }

  lemma TangentHom(p: OddPrime, a: int, P: Jacobian)
    ensures TangentNumerator(p, Red(p, a), RedTriple(p, P)) == Red(p, TangentNumeratorZ(a, P))
    ensures TangentDenominator(p, RedTriple(p, P)) == Red(p, P.Y + P.Y)
  {
    hide IsResidue, Red, Add, Sub, Mul;
    Homomorphism(p);
  }

  lemma TangentScaled(a: int, x: int, y: int, z: int)
    ensures TangentNumeratorZ(a, Scaled(x, y, z)) == (3 * x * x + a) * (z * z * (z * z))
    ensures Scaled(x, y, z).Y + Scaled(x, y, z).Y == (y + y) * (z * z * z)
  {
    var t := z * z;
    assert x * t * (x * t) == x * x * (t * t);
  }
}
