/**
 The Weierstrass ladder's theorems assume that the group law of the curve is
 associative.  Here that is proved of a curve with four points, on which the
 ladder is then followed for every n: it is right, gives a wrong infinity, or
 fails its assertion, each for some n.
 */
module GroupLawExamples {
  import opened PrimeField
  import opened Weierstrass
  import opened JacobianFormulas
  import opened JacobianGroup
  import opened JacobianInfinity
  import opened LadderBits
  import opened WeierstrassLadder

  const THREE: OddPrime := 3

  /** y^2 = x^3 + x over the field of three elements. */
  const FOUR_POINTS := Curve(THREE, 1, 0)

  /** The base point (2, 1). */
  const BASE := Jacobian(2, 1, 1)

  // ----- arithmetic modulo three

  function Mod3(x: int): (r: nat)
    requires -3 <= x < 6
    ensures r < 3
  {
    if x < 0 then x + 3 else if x < 3 then x else x - 3
  }

  lemma Remainder(x: int)
    requires -3 <= x < 6
    ensures Red(THREE, x) == Mod3(x)
  {
    if x < 0 {
      RedPlusMultiple(THREE, 1, x);
      assert Red(THREE, x + 3) == x + 3;
    } else if x >= 3 {
      RedPlusMultiple(THREE, 1, x - 3);
      assert Red(THREE, x - 3) == x - 3;
    } else {
      assert Red(THREE, x) == x;
    }
  }

  lemma RemainderOf(x: int)
    ensures Red(THREE, x) == x % 3
  {
    RedPlusMultiple(THREE, x / 3, x % 3);
    Remainder(x % 3);
  }

  /** The product of two residues, without a multiplication of variables. */
  function Product(l: nat, z: nat): (r: nat)
    ensures r < 3
  {
    if l == 0 || z == 0 then 0 else if l == z then 1 else 2
  }

  lemma ProductIs(l: nat, z: nat)
    requires l < 3 && z < 3
    ensures Mul(THREE, l, z) == Product(l, z)
  {
    assert l == 0 || l == 1 || l == 2;
    assert z == 0 || z == 1 || z == 2;
    Remainder(if l * z == 4 then 1 else l * z);
    RedPlusMultiple(THREE, 1, 1);
  }

  lemma QuotientIs(n: nat, d: nat, q: nat)
    requires n < 3 && 0 < d < 3 && q < 3 && Product(q, d) == n
    ensures Div(THREE, n, d) == q
  {
    ProductIs(q, d);
    hide Mul;
  }

  /** The third point of the line of slope l. */
  function OnLineOf(l: nat, x1: nat, y1: nat, x2: nat): Point
    requires l < 3 && x1 < 3 && y1 < 3 && x2 < 3
  {
    var x3 := Mod3(Product(l, l) - Mod3(x1 + x2));
    Affine(x3, Mod3(Product(l, Mod3(x1 - x3)) - y1))
  }

  lemma LineIs(l: nat, x1: nat, y1: nat, x2: nat)
    requires l < 3 && x1 < 3 && y1 < 3 && x2 < 3
    ensures LinePoint(THREE, l, x1, y1, x2) == OnLineOf(l, x1, y1, x2)
  {
    FirstCoordinate(l, x1, x2);
    SecondCoordinate(l, x1, y1, Mod3(Product(l, l) - Mod3(x1 + x2)));
    hide Product, Mod3, Mul, Sub, Add;
  }

  lemma FirstCoordinate(l: nat, x1: nat, x2: nat)
    requires l < 3 && x1 < 3 && x2 < 3
    ensures Sub(THREE, Mul(THREE, l, l), Add(THREE, x1, x2)) == Mod3(Product(l, l) - Mod3(x1 + x2))
  {
    hide Red, Product, Mod3, Mul;
    ProductIs(l, l);
    Remainder(x1 + x2);
    Remainder(Product(l, l) - Mod3(x1 + x2));
  }

  lemma SecondCoordinate(l: nat, x1: nat, y1: nat, x3: nat)
    requires l < 3 && x1 < 3 && y1 < 3 && x3 < 3
    ensures Sub(THREE, Mul(THREE, l, Sub(THREE, x1, x3)), y1) == Mod3(Product(l, Mod3(x1 - x3)) - y1)
  {
    hide Red, Product, Mod3, Mul;
    Remainder(x1 - x3);
    ProductIs(l, Mod3(x1 - x3));
    Remainder(Product(l, Mod3(x1 - x3)) - y1);
  }

  // ----- the group

  /** The multiples of (2, 1), in order. */
  function Multiple(i: nat): Point
    requires i < 4
  {
    if i == 0 then Infinity
    else if i == 1 then Affine(2, 1)
    else if i == 2 then Affine(0, 0)
    else Affine(2, 2)
  }

  function Index(A: Point): (i: nat)
    ensures i < 4
  {
    if A.Infinity? then 0 else if A.x == 0 then 2 else if A.y == 1 then 1 else 3
  }

  predicate Listed(A: Point) {
    A == Multiple(Index(A))
  }

  lemma PointsOf(A: Point)
    requires OnCurve(FOUR_POINTS, A)
    ensures Listed(A)
  {
    if A.Affine? {
      var x, y := A.x, A.y;
      assert IsResidue(THREE, x) && IsResidue(THREE, y);
      ResidualOf(x, y);
    }
  }

  lemma ResidualOf(x: nat, y: nat)
    requires x < 3 && y < 3
    ensures Red(THREE, Residual(1, 0, x, y)) == 0 <==> Listed(Affine(x, y))
  {
    hide Red;
    RemainderOf(Residual(1, 0, x, y));
    assert x == 0 || x == 1 || x == 2;
    assert y == 0 || y == 1 || y == 2;
  }

  /** The tangents at the two points of order four. */
  lemma PlusTangent(y: nat)
    requires y == 1 || y == 2
    ensures Plus(FOUR_POINTS, Affine(2, y), Affine(2, y)) == Affine(0, 0)
  {
    hide Red, LinePoint, TangentSlope;
    TangentIs(y);
    LineIs(3 - y, 2, y, 2);
  }

  lemma TangentIs(y: nat)
    requires y == 1 || y == 2
    ensures TangentSlope(FOUR_POINTS, 2, y) == 3 - y
  {
    hide Red;
    Remainder(y + y);
    RemainderOf(13);
    DoubleNonzero(THREE, y);
    QuotientIs(1, Mod3(y + y), 3 - y);
  }

  /** The chords through (0, 0). */
  lemma PlusChord(y: nat)
    requires y == 1 || y == 2
    ensures Plus(FOUR_POINTS, Affine(2, y), Affine(0, 0)) == Affine(2, 3 - y)
    ensures Plus(FOUR_POINTS, Affine(0, 0), Affine(2, y)) == Affine(2, 3 - y)
  {
    hide Red, LinePoint, Div;
    Remainder(0 - y);
    Remainder(y - 0);
    Remainder(0 - 2);
    Remainder(2 - 0);
    QuotientIs(3 - y, 1, 3 - y);
    QuotientIs(y, 2, 3 - y);
    LineIs(3 - y, 2, y, 0);
    LineIs(3 - y, 0, 0, 2);
  }

  /** Addition of indices. */
  function AddIndex(a: nat, b: nat): (c: nat)
    requires a < 4 && b < 4
    ensures c < 4
  {
    if a + b < 4 then a + b else a + b - 4
  }

  lemma PlusIsIndex(A: Point, B: Point)
    requires OnCurve(FOUR_POINTS, A) && OnCurve(FOUR_POINTS, B)
    ensures Plus(FOUR_POINTS, A, B) == Multiple(AddIndex(Index(A), Index(B)))
  {
    hide Plus, OnCurve;
    PointsOf(A);
    PointsOf(B);
    if A.Affine? && A == B && A.y != 0 {
      PlusTangent(A.y);
    } else if A.Affine? && B.Affine? && A.x != B.x {
      PlusChord(if A.x == 2 then A.y else B.y);
    } else {
      PlusElse(A, B);
    }
  }

  lemma PlusElse(A: Point, B: Point)
    requires Listed(A) && Listed(B)
    requires A.Infinity? || B.Infinity? || (A.x == B.x && (A.y != B.y || A.y == 0))
    ensures Plus(FOUR_POINTS, A, B) == Multiple(AddIndex(Index(A), Index(B)))
  {
    hide Red, LinePoint, Div, TangentSlope;
  }

  lemma IndexOfMultiple(i: nat)
    requires i < 4
    ensures Index(Multiple(i)) == i
  {
  }

  /** The law of the curve is that of the integers modulo four, so associative. */
  lemma FourIsAssociative()
    ensures Valid(FOUR_POINTS) && Associative(FOUR_POINTS)
  {
    forall A, B, C | OnCurve(FOUR_POINTS, A) && OnCurve(FOUR_POINTS, B) && OnCurve(FOUR_POINTS, C)
      ensures Plus(FOUR_POINTS, Plus(FOUR_POINTS, A, B), C) == Plus(FOUR_POINTS, A, Plus(FOUR_POINTS, B, C))
    {
      AssociativeAt(A, B, C);
    }
  }

  lemma AssociativeAt(A: Point, B: Point, C: Point)
    requires OnCurve(FOUR_POINTS, A) && OnCurve(FOUR_POINTS, B) && OnCurve(FOUR_POINTS, C)
    ensures Plus(FOUR_POINTS, Plus(FOUR_POINTS, A, B), C) == Plus(FOUR_POINTS, A, Plus(FOUR_POINTS, B, C))
  {
    hide Plus, Multiple, Index, AddIndex, Residual;
    var a, b, c := Index(A), Index(B), Index(C);
    PlusOnCurve(FOUR_POINTS, A, B);
    PlusOnCurve(FOUR_POINTS, B, C);
    PlusIsIndex(A, B);
    PlusIsIndex(B, C);
    IndexOfMultiple(AddIndex(a, b));
    IndexOfMultiple(AddIndex(b, c));
    PlusIsIndex(Plus(FOUR_POINTS, A, B), C);
    PlusIsIndex(A, Plus(FOUR_POINTS, B, C));
    AddIndexAssociates(a, b, c);
  }

  lemma AddIndexAssociates(a: nat, b: nat, c: nat)
    requires a < 4 && b < 4 && c < 4
    ensures AddIndex(AddIndex(a, b), c) == AddIndex(a, AddIndex(b, c))
  {
  }

  lemma BaseOnCurve()
    ensures OnCurve(FOUR_POINTS, Affine(2, 1)) && InField(FOUR_POINTS, Affine(2, 1)) && Index(Affine(2, 1)) == 1
  {
    ResidualOf(2, 1);
  }

  /** The base point has order four. */
  lemma {:induction false} MultiplesOfBase(i: nat)
    ensures InField(FOUR_POINTS, Affine(2, 1)) && Times(FOUR_POINTS, i, Affine(2, 1)) == Multiple(i % 4)
  {
    hide Plus, OnCurve, Index, Multiple;
    BaseOnCurve();
    if i == 0 {
      NoMultiple();
    } else {
      MultiplesOfBase(i - 1);
      IndexOfMultiple((i - 1) % 4);
      TimesOnCurve(FOUR_POINTS, i - 1, Affine(2, 1));
      PlusIsIndex(Multiple((i - 1) % 4), Affine(2, 1));
      assert AddIndex((i - 1) % 4, 1) == i % 4;
    }
  }

  lemma NoMultiple()
    ensures Multiple(0) == Infinity
  {
  }

  lemma BaseHasOrderFour()
    ensures InField(FOUR_POINTS, Affine(2, 1)) && HasOrder(FOUR_POINTS, Affine(2, 1), 4)
  {
    hide Times;
    forall i: nat ensures InField(FOUR_POINTS, Affine(2, 1)) && Times(FOUR_POINTS, i, Affine(2, 1)) == Multiple(i % 4) {
      MultiplesOfBase(i);
    }
  }

  /** Multiples next to each other differ in y. */
  lemma NothingRefused(n: nat, maxBits: nat)
    ensures InField(FOUR_POINTS, Affine(2, 1)) && !RefusedAbove(FOUR_POINTS, Affine(2, 1), n, 0, maxBits)
  {
    hide Times, Multiplier;
    BaseOnCurve();
    forall c ensures !Refused(FOUR_POINTS, Affine(2, 1), n, c) {
      MultiplesOfBase(Multiplier(n, c));
      MultiplesOfBase(Multiplier(n, c) + 1);
    }
  }

  lemma BaseOnGroup()
    ensures OnGroup(FOUR_POINTS, BASE) && Value(THREE, BASE) == Affine(2, 1)
  {
    FourIsAssociative();
    UnitValue(THREE, 2, 1);
    BaseOnCurve();
    NonsingularFour();
    hide Associative, Nonsingular, PointValid, Value, OnCurve;
    PointValidFinite(FOUR_POINTS, BASE);
  }

  lemma NonsingularFour()
    ensures Nonsingular(FOUR_POINTS)
  {
    RedPlusMultiple(THREE, 1, 1);
    Remainder(1);
  }

  // ----- the ladder

  /** From (2, 1) the loop is right exactly for those n no leading part of which is
      0 or 3 modulo four at the wrong place; nothing else stops it. */
  lemma LadderOnFour(n: nat, maxBits: nat)
    requires n < Pow2(maxBits)
    ensures Canonical(THREE, BASE)
    ensures var r := Ladder(FOUR_POINTS, BASE, n, 0, maxBits);
      && (r == Aborted <==> NearAbove(n, 4, maxBits))
      && (r.Running? ==>
          Value(THREE, r.P) == if NearLast(n, 4) then Infinity else Multiple(if n == 0 then 1 else n % 4))
      && (Returns(FOUR_POINTS, BASE, n, maxBits) <==> !NearAbove(n, 4, maxBits) && !NearLast(n, 4))
  {
    hide Value, OnGroup, Near, NearAbove, Times, HasOrder, RefusedAbove, Ladder, Multiple, Pow2, Returns, NearLast;
    BaseOnGroup();
    BaseHasOrderFour();
    NothingRefused(n, maxBits);
    MultiplesOfBase(if n == 0 then 1 else n);
    LadderByOrder(FOUR_POINTS, BASE, n, 4, maxBits);
  }

  /** Five is right; seven runs to its end and gives infinity instead of 7B = 3B;
      twelve fails the assertion, although 12B is infinity. */
  lemma FiveSevenTwelve(maxBits: nat)
    requires 12 < Pow2(maxBits)
    ensures Canonical(THREE, BASE) && InField(FOUR_POINTS, Affine(2, 1))
    ensures var r := Ladder(FOUR_POINTS, BASE, 5, 0, maxBits); r.Running? && Value(THREE, r.P) == Affine(2, 1)
    ensures var r := Ladder(FOUR_POINTS, BASE, 7, 0, maxBits); r.Running? && Value(THREE, r.P) == Infinity
    ensures Times(FOUR_POINTS, 7, Affine(2, 1)) == Affine(2, 2)
    ensures Ladder(FOUR_POINTS, BASE, 12, 0, maxBits) == Aborted
    ensures Times(FOUR_POINTS, 12, Affine(2, 1)) == Infinity
  {
    hide Value, Ladder, Near, NearAbove, Times;
    LadderOnFour(5, maxBits);
    LadderOnFour(7, maxBits);
    LadderOnFour(12, maxBits);
    NearHigh(5, 4, maxBits);
    NearHigh(7, 4, maxBits);
    NearHigh(12, 4, maxBits);
    NearLow(5, 4);
    NearLow(7, 4);
    MultiplesOfBase(7);
    MultiplesOfBase(12);
  }
}
