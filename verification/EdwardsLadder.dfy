/**
 Edwards points as the program holds them, and the ladder multiplication.
 */
module EdwardsLadder {
  import opened PrimeField
  import opened Edwards
  import opened EdwardsExtended
  import opened LadderBits

  class EdwardsPoint {
    var X: nat
    var Y: nat
    var Z: nat
    var T: nat

    constructor (P: Extended)
      requires P.X >= 0 && P.Y >= 0 && P.Z >= 0 && P.T >= 0
      ensures Coordinates() == P
    {
      X, Y, Z, T := P.X, P.Y, P.Z, P.T;
    }

    function Coordinates(): Extended
      reads this
    {
      Extended(X, Y, Z, T)
    }

    /** ecc_edwards_cond_overwrite */
    method CondOverwrite(src: EdwardsPoint, overwrite: bool)
      modifies this
      ensures Coordinates() == old(if overwrite then src.Coordinates() else Coordinates())
    {
      X := if overwrite then src.X else X;
      Y := if overwrite then src.Y else Y;
      Z := if overwrite then src.Z else Z;
      T := if overwrite then src.T else T;
    }

    /** ecc_edwards_cond_swap */
    method CondSwap(Q: EdwardsPoint, swap: bool)
      requires Q != this
      modifies this, Q
      ensures Coordinates() == old(if swap then Q.Coordinates() else Coordinates())
      ensures Q.Coordinates() == old(if swap then Coordinates() else Q.Coordinates())
    {
      if swap {
        X, Q.X := Q.X, X;
        Y, Q.Y := Q.Y, Y;
        Z, Q.Z := Q.Z, Z;
        T, Q.T := Q.T, T;
      }
    }

    /** ecc_edwards_normalise: the same point with Z one, so that X and Y are the
        affine coordinates. */
    method Normalise(E: Curve)
      requires InRange(E) && ValidPoint(E, Coordinates())
      modifies this
      ensures ValidPoint(E, Coordinates()) && Z == 1
      ensures Value(E.p, Coordinates()) == old(Value(E.p, Coordinates())) == EPoint(X, Y)
    {
      hide Mul, Inv, Value, ValidPoint;
      var p := E.p;
      ValidZ(E, Coordinates());
      var zinv := Inv(p, Z);
      NormalisedPoint(E, Coordinates());
      X := Mul(p, X, zinv);
      Y := Mul(p, Y, zinv);
      Z := 1;
      T := Mul(p, X, Y);
    }
  }

  lemma NormalisedPoint(E: Curve, P: Extended)
    requires InRange(E) && ValidPoint(E, P)
    ensures var i := Inv(E.p, P.Z);
            var A := EPoint(Mul(E.p, P.X, i), Mul(E.p, P.Y, i));
            var N := Extended(A.x, A.y, 1, Mul(E.p, A.x, A.y));
            Value(E.p, P) == A && ValidPoint(E, N) && Value(E.p, N) == A
  {
    hide Red, Mul, Div, Inv, LeftSide, RightSide;
    var p, i := E.p, Inv(E.p, P.Z);
    var A := Value(p, P);
    QuotientByInverse(p, P.X, P.Z);
    QuotientByInverse(p, P.Y, P.Z);
    ValueOnCurve(E, P);
    UnitPoint(E, A);
  }

  lemma QuotientByInverse(p: OddPrime, n: nat, d: nat)
    requires IsResidue(p, n) && IsResidue(p, d) && d != 0
    ensures Div(p, n, d) == Mul(p, n, Inv(p, d))
  {
    hide Mul, Inv;
  }

  /** A point of the curve with Z one. */
  lemma UnitPoint(E: Curve, A: EPoint)
    requires InRange(E) && OnCurve(E, A)
    ensures var N := Extended(A.x, A.y, 1, Mul(E.p, A.x, A.y));
            ValidPoint(E, N) && Value(E.p, N) == A
  {
    hide Red, Mul, Div, Residual, OnExtended, RedPoint;
    var p := E.p;
    var N, S := Extended(A.x, A.y, 1, Mul(p, A.x, A.y)), Scaled(A.x, A.y, 1);
    assert RedPoint(p, S) == N by {
      UnitScaled(p, A.x, A.y);
    }
    ScaledOnExtended(E, A);
    OnExtendedRed(p, E.a, E.d, S);
    MulOne(p, A.x);
    MulOne(p, A.y);
    ValueOfQuotients(p, N, A);
  }

  lemma UnitScaled(p: OddPrime, x: nat, y: nat)
    requires IsResidue(p, x) && IsResidue(p, y)
    ensures RedPoint(p, Scaled(x, y, 1)) == Extended(x, y, 1, Mul(p, x, y))
  {
    hide Red;
    Reduced(p, x);
    Reduced(p, y);
    Reduced(p, 1);
    assert x * 1 == x && y * 1 == y && x * y * 1 == x * y;
  }

  lemma ScaledOnExtended(E: Curve, A: EPoint)
    requires OnCurve(E, A)
    ensures OnExtended(E.p, E.a, E.d, Scaled(A.x, A.y, 1))
  {
    hide Red, Residual, LeftSide, RightSide;
    ScaledSides(E.a, E.d, A.x, A.y, 1);
    var S := Scaled(A.x, A.y, 1);
    assert 1 * 1 * Residual(E.a, E.d, A.x, A.y) == Residual(E.a, E.d, A.x, A.y);
    CongSub(E.p, LeftSide(E.a, S), RightSide(E.d, S));
    assert A.x * 1 * (A.y * 1) == 1 * (A.x * A.y * 1);
  }

  /** The addition rule stays on the curve. */
  lemma PlusOnCurve(E: Curve, A: EPoint, B: EPoint)
    requires InRange(E) && OnCurve(E, A) && OnCurve(E, B) && Summable(E, A, B)
    ensures OnCurve(E, Edwards.Plus(E, A, B))
  {
    hide *;
    UnitPoint(E, A);
    UnitPoint(E, B);
    var P, Q := Extended(A.x, A.y, 1, Mul(E.p, A.x, A.y)), Extended(B.x, B.y, 1, Mul(E.p, B.x, B.y));
    AddPointsValue(E, P, Q);
    ValueOnCurve(E, AddPoints(E, P, Q));
  }

  // ----- the ladder

  /** The sum of two points of a complete curve. */
  ghost function Sum(E: Curve, A: EPoint, B: EPoint): (S: EPoint)
    requires Complete(E) && OnCurve(E, A) && OnCurve(E, B)
    ensures OnCurve(E, S)
  {
    CompleteSummable(E, A, B);
    PlusOnCurve(E, A, B);
    Edwards.Plus(E, A, B)
  }

  /** The sum of n copies of B. */
  ghost function Times(E: Curve, n: nat, B: EPoint): (A: EPoint)
    requires Complete(E) && OnCurve(E, B) && n >= 1
    ensures OnCurve(E, A)
  {
    if n == 1 then B else Sum(E, Times(E, n - 1, B), B)
  }

  /** The part of the group law that is assumed of the curve. */
  ghost predicate Associative(E: Curve)
    requires Complete(E)
  {
    forall A, B, C {:trigger Sum(E, Sum(E, A, B), C)} {:trigger Sum(E, A, Sum(E, B, C))} :: OnCurve(E, A) && OnCurve(E, B) && OnCurve(E, C) ==>
      Sum(E, Sum(E, A, B), C) == Sum(E, A, Sum(E, B, C))
  }

  lemma {:induction false} TimesAdd(E: Curve, i: nat, j: nat, B: EPoint)
    requires Complete(E) && OnCurve(E, B) && Associative(E) && i >= 1 && j >= 1
    ensures Sum(E, Times(E, i, B), Times(E, j, B)) == Times(E, i + j, B)
  {
    hide Complete, OnCurve, Sum;
    if j > 1 {
      TimesAdd(E, i, j - 1, B);
      assert Sum(E, Times(E, j - 1, B), B) == Times(E, j, B);
      assert Sum(E, Times(E, i + (j - 1), B), B) == Times(E, i + j, B);
    }
  }

  ghost predicate Pair(E: Curve, B: EPoint, k: nat, P: Extended, Q: Extended)
    requires Complete(E) && OnCurve(E, B) && k >= 1
  {
    && ValidPoint(E, P) && Value(E.p, P) == Times(E, k, B)
    && ValidPoint(E, Q) && Value(E.p, Q) == Times(E, k + 1, B)
  }

  lemma AddMultiples(E: Curve, B: EPoint, i: nat, j: nat, P: Extended, Q: Extended)
    requires Complete(E) && OnCurve(E, B) && Associative(E) && i >= 1 && j >= 1
    requires ValidPoint(E, P) && ValidPoint(E, Q) && Value(E.p, P) == Times(E, i, B) && Value(E.p, Q) == Times(E, j, B)
    ensures ValidPoint(E, AddPoints(E, P, Q)) && Value(E.p, AddPoints(E, P, Q)) == Times(E, i + j, B)
  {
    hide Red, Value, AddPoints, Summable, Edwards.Plus, OnExtended, OnCurve, IsSquareRoot, Times, Associative;
    CompleteSummable(E, Times(E, i, B), Times(E, j, B));
    AddPointsValue(E, P, Q);
    TimesAdd(E, i, j, B);
  }

  /** Two additions take k to 2k or 2k + 1. */
  lemma LadderStep(E: Curve, B: EPoint, k: nat, P: Extended, Q: Extended)
    requires Complete(E) && OnCurve(E, B) && Associative(E) && k >= 1 && Pair(E, B, k, P, Q)
    ensures Pair(E, B, 2 * k, AddPoints(E, P, P), AddPoints(E, P, Q))
    ensures Pair(E, B, 2 * k + 1, AddPoints(E, P, Q), AddPoints(E, Q, Q))
  {
    hide Complete, OnCurve, Associative, AddPoints, Value, ValidPoint, Times;
    AddMultiples(E, B, k, k, P, P);
    AddMultiples(E, B, k, k + 1, P, Q);
    AddMultiples(E, B, k + 1, k + 1, Q, Q);
  }

  lemma LadderStart(E: Curve, P: Extended)
    requires Complete(E) && Associative(E) && ValidPoint(E, P)
    ensures OnCurve(E, Value(E.p, P)) && Pair(E, Value(E.p, P), 1, P, AddPoints(E, P, P))
  {
    hide Associative, AddPoints, Value, OnExtended, OnCurve, Red, IsSquareRoot;
    ValueOnCurve(E, P);
    AddMultiples(E, Value(E.p, P), 1, 1, P, P);
  }

  /** ecc_edwards_multiply.  On a complete curve it returns nB for every n >= 1
      and any number of leading zero bits, and B for n = 0. */
  method Multiply(E: Curve, B: EdwardsPoint, n: nat, maxBits: nat) returns (r: EdwardsPoint)
    requires Complete(E) && Associative(E) && ValidPoint(E, B.Coordinates()) && n < Pow2(maxBits)
    ensures fresh(r) && ValidPoint(E, r.Coordinates())
    ensures OnCurve(E, Value(E.p, B.Coordinates()))
    ensures Value(E.p, r.Coordinates()) == Times(E, if n == 0 then 1 else n, Value(E.p, B.Coordinates()))
  {
    hide Complete, Associative, AddPoints, Value, Times, OnCurve, Prefix, Bit, Multiplier, Pow2, OnExtended;
    LadderStart(E, B.Coordinates());
    ghost var A := Value(E.p, B.Coordinates());
    var twoB := new EdwardsPoint(AddPoints(E, B.Coordinates(), B.Coordinates()));
    var kB := new EdwardsPoint(B.Coordinates());
    var kplus1B := new EdwardsPoint(twoB.Coordinates());
    var notStartedYet := true;
    var bitindex: nat := maxBits;
    NothingRead(n, maxBits);
    while bitindex > 0
      invariant bitindex <= maxBits
      invariant fresh(twoB) && fresh(kB) && fresh(kplus1B) && kB != kplus1B && kB != twoB && kplus1B != twoB
      invariant Pair(E, A, 1, B.Coordinates(), twoB.Coordinates())
      invariant Pair(E, A, Multiplier(n, bitindex), kB.Coordinates(), kplus1B.Coordinates())
      invariant notStartedYet <==> Prefix(n, bitindex) == 0
    {
      LadderStep(E, A, Multiplier(n, bitindex), kB.Coordinates(), kplus1B.Coordinates());
      bitindex := bitindex - 1;
      var nbit := Bit(n, bitindex);
      ReadBit(n, bitindex);

      var sum := new EdwardsPoint(AddPoints(E, kB.Coordinates(), kplus1B.Coordinates()));
      kB.CondSwap(kplus1B, nbit);
      var other := new EdwardsPoint(AddPoints(E, kB.Coordinates(), kB.Coordinates()));
      kB := other;
      kplus1B := sum;
      kB.CondSwap(kplus1B, nbit);

      kB.CondOverwrite(B, notStartedYet);
      kplus1B.CondOverwrite(twoB, notStartedYet);
      notStartedYet := notStartedYet && !nbit;
    }
    AllBitsRead(n);
    r := kB;
  }
}
