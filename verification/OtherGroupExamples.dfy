/**
 The ladders on Montgomery and Edwards curves assume associativity as well.  Here it
 is proved of a curve of each kind over the field of three elements, so those
 assumptions are not empty either.
 */
module OtherGroupExamples {
  import opened PrimeField
  import Weierstrass
  import WeierstrassLadder
  import Montgomery
  import MontgomeryLadder
  import Edwards
  import EdwardsLadder
  import opened GroupLawExamples

  // ----- y^2 = x^3 + x as a Montgomery curve

  const MONTGOMERY := Montgomery.Curve(THREE, 0, 1)

  lemma MontgomeryValid()
    ensures Montgomery.Valid(MONTGOMERY)
  {
    RemainderOf(0);
    RemainderOf(4);
    hide Red;
  }

  lemma SameCurve(A: Point)
    ensures Montgomery.OnCurve(MONTGOMERY, A) <==> Weierstrass.OnCurve(FOUR_POINTS, A)
  {
    if A.Affine? {
      hide Red;
      var x, y := A.x, A.y;
      CongSub(THREE, Montgomery.Cubic(0, x), 1 * (y * y));
      assert Weierstrass.Residual(1, 0, x, y) == Montgomery.Cubic(0, x) - 1 * (y * y);
    }
  }

  lemma SameLine(l: nat, x1: nat, y1: nat, x2: nat)
    ensures Montgomery.LinePoint(MONTGOMERY, l, x1, y1, x2) == Weierstrass.LinePoint(THREE, l, x1, y1, x2)
  {
    hide Red;
    MulOne(THREE, Mul(THREE, l, l));
    Reduced(THREE, Add(THREE, x1, x2));
  }

  lemma SameTangent(x: nat, y: nat)
    requires IsResidue(THREE, y) && y != 0 && Montgomery.Valid(MONTGOMERY)
    ensures Montgomery.TangentSlope(MONTGOMERY, x, y) == Weierstrass.TangentSlope(FOUR_POINTS, x, y)
  {
    hide Red;
    assert Montgomery.TangentNumerator(0, x) == 3 * x * x + 1;
    assert 2 * 1 * y == y + y;
    Weierstrass.DoubleNonzero(THREE, y);
    Montgomery.TangentDenominatorNonzero(MONTGOMERY, y);
  }

  /** It is the group with four points again. */
  lemma SameLaw(A: Point, B: Point)
    requires Weierstrass.OnCurve(FOUR_POINTS, A) && Weierstrass.OnCurve(FOUR_POINTS, B) && Montgomery.Valid(MONTGOMERY)
    ensures Montgomery.InField(MONTGOMERY, A) && Montgomery.InField(MONTGOMERY, B)
    ensures Montgomery.Plus(MONTGOMERY, A, B) == Weierstrass.Plus(FOUR_POINTS, A, B)
  {
    hide Red, Montgomery.LinePoint, Weierstrass.LinePoint, Montgomery.TangentSlope, Weierstrass.TangentSlope, Div;
    if A.Affine? && B.Affine? {
      if A.x != B.x {
        SubZero(THREE, B.x, A.x);
        SameLine(Montgomery.ChordSlope(THREE, A, B), A.x, A.y, B.x);
      } else if A.y == B.y && A.y != 0 {
        SameTangent(A.x, A.y);
        SameLine(Montgomery.TangentSlope(MONTGOMERY, A.x, A.y), A.x, A.y, A.x);
      }
    }
  }

  lemma MontgomeryIsAssociative()
    ensures Montgomery.Valid(MONTGOMERY) && MontgomeryLadder.Associative(MONTGOMERY)
  {
    MontgomeryValid();
    FourIsAssociative();
    hide Montgomery.Plus, Weierstrass.Plus, Montgomery.OnCurve, Weierstrass.OnCurve, Montgomery.Valid;
    forall A, B, C | Montgomery.OnCurve(MONTGOMERY, A) && Montgomery.OnCurve(MONTGOMERY, B) && Montgomery.OnCurve(MONTGOMERY, C)
      ensures Montgomery.InField(MONTGOMERY, A) && Montgomery.InField(MONTGOMERY, B) && Montgomery.InField(MONTGOMERY, C)
      ensures Montgomery.Plus(MONTGOMERY, Montgomery.Plus(MONTGOMERY, A, B), C)
           == Montgomery.Plus(MONTGOMERY, A, Montgomery.Plus(MONTGOMERY, B, C))
    {
      SameCurve(A);
      SameCurve(B);
      SameCurve(C);
      SameLaw(A, B);
      SameLaw(B, C);
      Weierstrass.PlusOnCurve(FOUR_POINTS, A, B);
      Weierstrass.PlusOnCurve(FOUR_POINTS, B, C);
      SameLaw(Weierstrass.Plus(FOUR_POINTS, A, B), C);
      SameLaw(A, Weierstrass.Plus(FOUR_POINTS, B, C));
      AssociativeAt(A, B, C);
    }
  }

  // ----- x^2 + y^2 = 1 + 2 x^2 y^2

  const EDWARDS := Edwards.Curve(THREE, 2, 1)

  lemma EdwardsComplete()
    ensures Edwards.Complete(EDWARDS)
  {
    hide Red;
    RemainderOf(0);
    RemainderOf(1);
    RemainderOf(4);
    assert Edwards.IsSquareRoot(THREE, 1, 1);
    forall r: nat ensures !Edwards.IsSquareRoot(THREE, r, 2) {
      if r < 3 {
        assert r == 0 || r == 1 || r == 2;
      }
    }
  }

  /** The multiples of (1, 0), in order. */
  function Turned(i: nat): Edwards.EPoint
    requires i < 4
  {
    if i == 0 then Edwards.EPoint(0, 1)
    else if i == 1 then Edwards.EPoint(1, 0)
    else if i == 2 then Edwards.EPoint(0, 2)
    else Edwards.EPoint(2, 0)
  }

  function Turns(A: Edwards.EPoint): (i: nat)
    ensures i < 4
  {
    if A.x == 0 then (if A.y == 1 then 0 else 2) else if A.x == 1 then 1 else 3
  }

  lemma EdwardsPoints(A: Edwards.EPoint)
    requires Edwards.OnCurve(EDWARDS, A)
    ensures A == Turned(Turns(A)) && (A.x == 0 || A.y == 0)
  {
    hide Red;
    var x, y := A.x, A.y;
    assert IsResidue(THREE, x) && IsResidue(THREE, y);
    RemainderOf(Edwards.Residual(1, 2, x, y));
    assert x == 0 || x == 1 || x == 2;
    assert y == 0 || y == 1 || y == 2;
  }

  lemma Quarter(i: nat)
    requires i < 4
    ensures Turns(Turned(i)) == i
  {
  }

  lemma ByOne(n: int)
    ensures Div(THREE, Red(THREE, n), Red(THREE, 1)) == n % 3
  {
    hide Red, Mul, Div;
    RemainderOf(n);
    RemainderOf(1);
    MulOne(THREE, n % 3);
    DividesByOne(n % 3);
  }

  lemma DividesByOne(r: nat)
    requires r < 3 && Mul(THREE, r, 1) == r
    ensures Div(THREE, r, 1) == r
  {
  }

  lemma EdwardsSum(A: Edwards.EPoint, B: Edwards.EPoint)
    requires Edwards.OnCurve(EDWARDS, A) && Edwards.OnCurve(EDWARDS, B) && Edwards.Complete(EDWARDS)
    ensures EdwardsLadder.Sum(EDWARDS, A, B) == Turned(AddIndex(Turns(A), Turns(B)))
  {
    hide Edwards.Plus, Edwards.Summable, Edwards.OnCurve, Edwards.Complete, Turned, Turns, AddIndex, Edwards.XNumerator,
      Edwards.YNumerator;
    Edwards.CompleteSummable(EDWARDS, A, B);
    EdwardsPoints(A);
    EdwardsPoints(B);
    PlusUntwisted(A, B);
    TurnsAdd(A, B);
  }

  lemma PlusUntwisted(A: Edwards.EPoint, B: Edwards.EPoint)
    requires Edwards.Summable(EDWARDS, A, B) && (A.x == 0 || A.y == 0)
    ensures Edwards.Plus(EDWARDS, A, B)
         == Edwards.EPoint(Edwards.XNumerator(A, B) % 3, Edwards.YNumerator(1, A, B) % 3)
  {
    NoTwist(A, B);
    hide Red, Div, Edwards.XNumerator, Edwards.YNumerator, Edwards.Twist;
    ByOne(Edwards.XNumerator(A, B));
    ByOne(Edwards.YNumerator(1, A, B));
  }

  lemma NoTwist(A: Edwards.EPoint, B: Edwards.EPoint)
    requires A.x == 0 || A.y == 0
    ensures Edwards.Twist(2, A.x, A.y, B.x, B.y) == 0
  {
    assert A.x * B.x * (A.y * B.y) == 0;
  }

  lemma TurnsAdd(A: Edwards.EPoint, B: Edwards.EPoint)
    requires A == Turned(Turns(A)) && B == Turned(Turns(B))
    ensures Edwards.EPoint(Edwards.XNumerator(A, B) % 3, Edwards.YNumerator(1, A, B) % 3)
         == Turned(AddIndex(Turns(A), Turns(B)))
  {
    hide *;
    Numerators(A, B);
    TurnedBy(Turns(A), Turns(B), Edwards.XNumerator(A, B), Edwards.YNumerator(1, A, B));
  }

  lemma Numerators(A: Edwards.EPoint, B: Edwards.EPoint)
    requires A == Turned(Turns(A))
    ensures var x, y := Edwards.XNumerator(A, B), Edwards.YNumerator(1, A, B);
      && (Turns(A) == 0 ==> x == B.x && y == B.y)
      && (Turns(A) == 1 ==> x == B.y && y == 0 - B.x)
      && (Turns(A) == 2 ==> x == 2 * B.x && y == 2 * B.y)
      && (Turns(A) == 3 ==> x == 2 * B.y && y == 0 - 2 * B.x)
  {
  }

  lemma TurnedBy(i: nat, j: nat, x: int, y: int)
    requires i < 4 && j < 4
    requires i == 0 ==> x == Turned(j).x && y == Turned(j).y
    requires i == 1 ==> x == Turned(j).y && y == 0 - Turned(j).x
    requires i == 2 ==> x == 2 * Turned(j).x && y == 2 * Turned(j).y
    requires i == 3 ==> x == 2 * Turned(j).y && y == 0 - 2 * Turned(j).x
    ensures Edwards.EPoint(x % 3, y % 3) == Turned(AddIndex(i, j))
  {
    assert j == 0 || j == 1 || j == 2 || j == 3;
  }

  lemma EdwardsIsAssociative()
    ensures Edwards.Complete(EDWARDS) && EdwardsLadder.Associative(EDWARDS)
  {
    EdwardsComplete();
    hide EdwardsLadder.Sum, Edwards.OnCurve, Edwards.Complete, Turned, Turns, AddIndex;
    forall A, B, C | Edwards.OnCurve(EDWARDS, A) && Edwards.OnCurve(EDWARDS, B) && Edwards.OnCurve(EDWARDS, C)
      ensures EdwardsLadder.Sum(EDWARDS, EdwardsLadder.Sum(EDWARDS, A, B), C)
           == EdwardsLadder.Sum(EDWARDS, A, EdwardsLadder.Sum(EDWARDS, B, C))
    {
      EdwardsSum(A, B);
      EdwardsSum(B, C);
      Quarter(AddIndex(Turns(A), Turns(B)));
      Quarter(AddIndex(Turns(B), Turns(C)));
      EdwardsSum(EdwardsLadder.Sum(EDWARDS, A, B), C);
      EdwardsSum(A, EdwardsLadder.Sum(EDWARDS, B, C));
      AddIndexAssociates(Turns(A), Turns(B), Turns(C));
    }
  }
}
