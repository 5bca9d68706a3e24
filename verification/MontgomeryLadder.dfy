/**
 Montgomery points as the program holds them, and the x-only ladder.
 */
module MontgomeryLadder {
  import opened PrimeField
  import opened Montgomery
  import opened LadderBits

  class MontgomeryPoint {
    var X: nat
    var Z: nat

    constructor (P: XZ)
      requires P.X >= 0 && P.Z >= 0
      ensures Pair() == P
    {
      X, Z := P.X, P.Z;
    }

    function Pair(): XZ
      reads this
    {
      XZ(X, Z)
    }

    /** ecc_montgomery_cond_overwrite */
    method CondOverwrite(src: MontgomeryPoint, overwrite: bool)
      modifies this
      ensures Pair() == old(if overwrite then src.Pair() else Pair())
    {
      X := if overwrite then src.X else X;
      Z := if overwrite then src.Z else Z;
    }

    /** ecc_montgomery_cond_swap */
    method CondSwap(Q: MontgomeryPoint, swap: bool)
      requires Q != this
      modifies this, Q
      ensures Pair() == old(if swap then Q.Pair() else Pair())
      ensures Q.Pair() == old(if swap then Pair() else Q.Pair())
    {
      if swap {
        X, Q.X := Q.X, X;
        Z, Q.Z := Q.Z, Z;
      }
    }

    /** ecc_montgomery_normalise: X becomes the x-coordinate. */
    method Normalise(p: OddPrime, ghost A: Point)
      requires Represents(p, Pair(), A) && A.Affine?
      modifies this
      ensures Z == 1 && X == A.x && Represents(p, Pair(), A)
    {
      var zinv := Inv(p, Z);
      NormalisedX(p, A.x, X, Z);
      X := Mul(p, X, zinv);
      Z := 1;
    }
  }

  lemma NormalisedX(p: OddPrime, x: nat, X: nat, Z: nat)
    requires IsResidue(p, x) && IsResidue(p, Z) && Z != 0 && Mul(p, x, Z) == X
    ensures Mul(p, X, Inv(p, Z)) == x && Mul(p, x, 1) == x
  {
    hide Mul, Inv;
    MulAssoc(p, x, Z, Inv(p, Z));
    MulOne(p, x);
  }

  /** The n-fold sum of B. */
  function Times(E: Curve, n: nat, B: Point): (A: Point)
    requires Valid(E) && InField(E, B)
    ensures InField(E, A)
  {
    if n == 0 then Infinity else Plus(E, Times(E, n - 1, B), B)
  }

  /** The part of the group law that is assumed of the curve; the rest is
      proved. */
  ghost predicate Associative(E: Curve)
    requires Valid(E)
  {
    forall A, B, C {:trigger Plus(E, Plus(E, A, B), C)} {:trigger Plus(E, A, Plus(E, B, C))} :: OnCurve(E, A) && OnCurve(E, B) && OnCurve(E, C) ==>
      Plus(E, Plus(E, A, B), C) == Plus(E, A, Plus(E, B, C))
  }

  lemma {:induction false} TimesOnCurve(E: Curve, n: nat, B: Point)
    requires Valid(E) && OnCurve(E, B)
    ensures OnCurve(E, Times(E, n, B))
  {
    hide Plus, Red, Cubic;
    if n > 0 {
      TimesOnCurve(E, n - 1, B);
      PlusOnCurve(E, Times(E, n - 1, B), B);
    }
  }

  lemma {:induction false} TimesAdd(E: Curve, i: nat, j: nat, B: Point)
    requires Valid(E) && OnCurve(E, B) && Associative(E)
    ensures Plus(E, Times(E, i, B), Times(E, j, B)) == Times(E, i + j, B)
  {
    hide Plus, Red, Cubic;
    TimesOnCurve(E, i, B);
    if j == 0 {
      PlusInfinity(E, Times(E, i, B));
    } else {
      TimesAdd(E, i, j - 1, B);
      TimesOnCurve(E, j - 1, B);
    }
  }

  lemma TimesOne(E: Curve, B: Point)
    requires Valid(E) && OnCurve(E, B)
    ensures Times(E, 1, B) == B
  {
    PlusInfinity(E, B);
    assert Times(E, 1, B) == Plus(E, Times(E, 0, B), B);
    hide Plus, OnCurve;
  }

  /** kB - (k+1)B = -B, which is what differential addition is told. */
  lemma LadderDifference(E: Curve, k: nat, B: Point)
    requires Valid(E) && OnCurve(E, B) && Associative(E)
    ensures InField(E, Negate(E.p, Times(E, k + 1, B)))
    ensures Plus(E, Times(E, k, B), Negate(E.p, Times(E, k + 1, B))) == Negate(E.p, B)
  {
    hide Plus, Red, Cubic, Times, Negate;
    var K, C, N := Times(E, k, B), Times(E, k + 1, B), Negate(E.p, B);
    TimesOnCurve(E, k, B);
    TimesOnCurve(E, k + 1, B);
    NegateOnCurve(E, B);
    NegateOnCurve(E, C);
    TimesOne(E, B);
    TimesAdd(E, 1, k, B);
    PlusNegate(E, B);
    PlusNegate(E, C);
    PlusInfinity(E, K);
    PlusInfinity(E, N);
    assert Plus(E, N, C) == K by {
      assert Plus(E, N, Plus(E, B, K)) == Plus(E, Plus(E, N, B), K);
    }
    assert Plus(E, Plus(E, N, C), Negate(E.p, C)) == Plus(E, N, Plus(E, C, Negate(E.p, C)));
  }

  /** The point's x-coordinate serves as the difference. */
  predicate Usable(A: Point) {
    A.Affine? && A.x != 0
  }

  ghost predicate Stands(E: Curve, B: Point, k: nat, P: XZ, Q: XZ)
    requires Valid(E) && InField(E, B)
  {
    Represents(E.p, P, Times(E, k, B)) && Represents(E.p, Q, Times(E, k + 1, B))
  }

  lemma StandsStep(E: Curve, B: Point, k: nat, P: XZ, Q: XZ, R: XZ)
    requires Valid(E) && OnCurve(E, B) && Associative(E) && Usable(B)
    requires Stands(E, B, k, P, Q) && Represents(E.p, R, B)
    ensures Stands(E, B, 2 * k, DoubleXZ(E.p, APlus2Over4(E), P), DiffAdd(E.p, P, Q, R))
    ensures Stands(E, B, 2 * k + 1, DiffAdd(E.p, P, Q, R), DoubleXZ(E.p, APlus2Over4(E), Q))
  {
    hide Red, Cubic, Plus, Represents, DoubleXZ, DiffAdd, APlus2Over4, Valid, Associative, Times;
    TimesOnCurve(E, k, B);
    TimesOnCurve(E, k + 1, B);
    DoubleRepresents(E, Times(E, k, B), P);
    DoubleRepresents(E, Times(E, k + 1, B), Q);
    TimesAdd(E, k, k, B);
    TimesAdd(E, k, k + 1, B);
    TimesAdd(E, k + 1, k + 1, B);
    LadderDifference(E, k, B);
    RepresentsNegation(E.p, R, B);
    DiffAddRepresents(E, Times(E, k, B), Times(E, k + 1, B), P, Q, R);
  }

  lemma RepresentsNegation(p: OddPrime, R: XZ, A: Point)
    requires Represents(p, R, A)
    ensures Represents(p, R, Negate(p, A))
  {
  }

  lemma LadderStart(E: Curve, B: Point, P: XZ)
    requires Valid(E) && OnCurve(E, B) && Represents(E.p, P, B)
    ensures Stands(E, B, 1, P, DoubleXZ(E.p, APlus2Over4(E), P))
  {
    hide Red, Cubic, Plus, Represents, DoubleXZ, APlus2Over4;
    TimesOne(E, B);
    DoubleRepresents(E, B, P);
    assert Times(E, 2, B) == Plus(E, Times(E, 1, B), B);
  }

  // ----- base points with x = 0 or at infinity

  predicate PowerOfTwo(n: nat) {
    n == 1 || (n > 0 && n % 2 == 0 && PowerOfTwo(n / 2))
  }

  lemma PowerOfTwoTwice(k: nat)
    requires k >= 1
    ensures PowerOfTwo(2 * k) <==> PowerOfTwo(k)
  {
    assert 2 * k / 2 == k && 2 * k % 2 == 0;
  }

  lemma PowerOfTwoOdd(k: nat)
    requires k >= 1
    ensures !PowerOfTwo(2 * k + 1)
  {
    assert (2 * k + 1) % 2 == 1;
  }

  lemma PowersApart(k: nat)
    requires k >= 2 && PowerOfTwo(k)
    ensures !PowerOfTwo(k + 1)
  {
    assert k % 2 == 0;
    PowerOfTwoOdd(k / 2);
  }

  /** What is left of a multiple of an unusable base point: Z is zero, and X is
      not exactly for a power of two. */
  predicate Remains(p: OddPrime, k: nat, P: XZ) {
    IsPair(p, P) && P.Z == 0 && (P.X != 0 <==> PowerOfTwo(k))
  }

  predicate Degenerate(p: OddPrime, B: XZ, k: nat, P: XZ, Q: XZ) {
    Remains(p, k + 1, Q) && if k == 1 then P == B else Remains(p, k, P)
  }

  lemma DoubleVanishing(p: OddPrime, q: nat, P: XZ)
    requires IsPair(p, P) && IsResidue(p, q) && (P.X == 0 || P.Z == 0)
    ensures var D := DoubleXZ(p, q, P);
      IsPair(p, D) && D.Z == 0 && (D.X == 0 <==> P.X == 0 && P.Z == 0)
  {
    hide Red, DoubleXZ;
    ReducedSelf(p, P);
    Reduced(p, q);
    Reduced(p, 0);
    DoubleHom(p, q, P);
    assert P.X * P.Z == 0;
    var z := if P.X == 0 then P.Z else P.X;
    SquaresOfOne(P.X, P.Z, z);
    if z != 0 {
      FourthPower(p, z);
    }
  }

  lemma SquaresOfOne(x: int, y: int, z: int)
    requires (x == 0 && z == y) || (y == 0 && z == x)
    ensures (x - y) * (x - y) * ((x + y) * (x + y)) == z * z * (z * z)
  {
    if x == 0 {
      assert (0 - y) * (0 - y) == y * y;
    }
  }

  /** With nothing usable as the difference every sum is (0 : 0). */
  lemma DegenerateStep(p: OddPrime, q: nat, B: XZ, k: nat, P: XZ, Q: XZ)
    requires IsPair(p, B) && IsResidue(p, q) && (B.X == 0 <==> B.Z != 0)
    requires k >= 1 && Degenerate(p, B, k, P, Q)
    ensures Degenerate(p, B, 2 * k, DoubleXZ(p, q, P), DiffAdd(p, P, Q, B))
    ensures Degenerate(p, B, 2 * k + 1, DiffAdd(p, P, Q, B), DoubleXZ(p, q, Q))
  {
    assert PowerOfTwo(1);
    hide DoubleXZ, DiffAdd, PowerOfTwo;
    PowerOfTwoTwice(k);
    PowerOfTwoTwice(k + 1);
    PowerOfTwoOdd(k);
    if k >= 2 && PowerOfTwo(k) {
      PowersApart(k);
    }
    assert P.X * Q.X == P.Z * Q.Z || B.Z == 0;
    DiffAddVanishes(p, P, Q, B);
    DoubleVanishing(p, q, P);
    DoubleVanishing(p, q, Q);
  }

  lemma DegenerateStart(E: Curve, A: Point, B: XZ)
    requires Valid(E) && OnCurve(E, A) && Represents(E.p, B, A) && !Usable(A)
    ensures B.X == 0 <==> B.Z != 0
    ensures Degenerate(E.p, B, 1, B, DoubleXZ(E.p, APlus2Over4(E), B))
    ensures Times(E, 2, A) == Infinity
  {
    hide Red, Mul, DoubleXZ, APlus2Over4, Times, Plus, Cubic;
    if A.Affine? {
      MulZero(E.p, B.Z);
    }
    DoubleVanishing(E.p, APlus2Over4(E), B);
    LadderStart(E, A, B);
    PowerOfTwoTwice(1);
  }

  predicate Vanishes(E: Curve, n: nat, A: Point)
    requires Valid(E) && InField(E, A)
  {
    Times(E, n, A) == Infinity
  }

  lemma VanishesSum(E: Curve, m: nat, h: nat, A: Point)
    requires Valid(E) && OnCurve(E, A) && Associative(E) && InField(E, A) && Vanishes(E, m, A) && Vanishes(E, h, A)
    ensures Vanishes(E, m + h, A)
  {
    hide Times, Plus, Associative, OnCurve, Valid;
    TimesAdd(E, m, h, A);
    PlusInfinity(E, Infinity);
  }

  lemma {:induction false} VanishesMultiple(E: Curve, h: nat, j: nat, A: Point)
    requires Valid(E) && OnCurve(E, A) && Associative(E) && InField(E, A) && Vanishes(E, h, A)
    ensures Vanishes(E, j * h, A)
  {
    if j > 0 {
      hide *;
      assert j * h == (j - 1) * h + h;
      VanishesMultiple(E, h, j - 1, A);
      VanishesSum(E, (j - 1) * h, h, A);
    }
  }

  // ----- the loop

  /** What the pair is with the multiplier k, for any base point A that B stands
      for. */
  ghost predicate Leads(E: Curve, A: Point, B: XZ, k: nat, P: XZ, Q: XZ)
    requires Valid(E) && InField(E, A)
  {
    if Usable(A) then Stands(E, A, k, P, Q) else Degenerate(E.p, B, k, P, Q)
  }

  /** One differential addition and one doubling take k to 2k or 2k + 1. */
  lemma LadderStep(E: Curve, A: Point, B: XZ, k: nat, P: XZ, Q: XZ)
    requires Valid(E) && OnCurve(E, A) && Associative(E) && Represents(E.p, B, A)
    requires k >= 1 && Leads(E, A, B, k, P, Q)
    ensures Leads(E, A, B, 2 * k, DoubleXZ(E.p, APlus2Over4(E), P), DiffAdd(E.p, P, Q, B))
    ensures Leads(E, A, B, 2 * k + 1, DiffAdd(E.p, P, Q, B), DoubleXZ(E.p, APlus2Over4(E), Q))
  {
    hide Red, Cubic, Plus, Stands, Degenerate, DoubleXZ, DiffAdd, APlus2Over4, Associative, Times, Mul;
    if Usable(A) {
      StandsStep(E, A, k, P, Q, B);
    } else {
      DegenerateStart(E, A, B);
      DegenerateStep(E.p, APlus2Over4(E), B, k, P, Q);
    }
  }

  lemma LeadsStart(E: Curve, A: Point, B: XZ)
    requires Valid(E) && OnCurve(E, A) && Represents(E.p, B, A)
    ensures Leads(E, A, B, 1, B, DoubleXZ(E.p, APlus2Over4(E), B))
  {
    hide Red, Cubic, Plus, Stands, Degenerate, DoubleXZ, APlus2Over4, Times, Represents;
    if Usable(A) {
      LadderStart(E, A, B);
    } else {
      DegenerateStart(E, A, B);
    }
  }

  /** What the first member of a pair says of nA. */
  predicate Result(E: Curve, A: Point, n: nat, P: XZ)
    requires Valid(E) && InField(E, A)
  {
    && (Represents(E.p, P, Times(E, if n == 0 then 1 else n, A)) <==> Usable(A) || n == 0 || PowerOfTwo(n))
    && (!Usable(A) && n >= 2 ==> P.Z == 0)
  }

  lemma LeadsResult(E: Curve, A: Point, B: XZ, n: nat, P: XZ, Q: XZ)
    requires Valid(E) && OnCurve(E, A) && Associative(E) && Represents(E.p, B, A)
    requires Leads(E, A, B, if n == 0 then 1 else n, P, Q)
    ensures Result(E, A, n, P)
  {
    hide Red, Cubic, Plus, Associative, Times, Mul;
    if !Usable(A) {
      hide DoubleXZ, APlus2Over4;
      DegenerateStart(E, A, B);
      TimesOne(E, A);
      if PowerOfTwo(n) && n >= 2 {
        VanishesMultiple(E, 2, n / 2, A);
      }
    }
  }

  /** ecc_montgomery_multiply, for the point A that B stands for.  If A is finite
      with x nonzero the result stands for nA for every n >= 1, even beyond the
      order of A, and any number of leading zero bits, and for A when n = 0.  For
      the other base points Z is zero from n = 2 on, and only powers of two are
      right. */
  method Multiply(E: Curve, B: MontgomeryPoint, n: nat, maxBits: nat, ghost A: Point) returns (r: MontgomeryPoint)
    requires Valid(E) && Associative(E) && OnCurve(E, A)
    requires Represents(E.p, B.Pair(), A) && n < Pow2(maxBits)
    ensures fresh(r) && Result(E, A, n, r.Pair())
  {
    hide Red, Cubic, Plus, DoubleXZ, DiffAdd, APlus2Over4, Valid, Associative, Times, Prefix, Bit, Multiplier, Pow2, Mul, Result,
      Leads;
    var p, q := E.p, APlus2Over4(E);
    LeadsStart(E, A, B.Pair());
    var twoB := new MontgomeryPoint(DoubleXZ(p, q, B.Pair()));
    var kB := new MontgomeryPoint(B.Pair());
    var kplus1B := new MontgomeryPoint(twoB.Pair());
    var notStartedYet := true;
    var bitindex: nat := maxBits;
    NothingRead(n, maxBits);
    while bitindex > 0
      invariant bitindex <= maxBits
      invariant fresh(twoB) && fresh(kB) && fresh(kplus1B) && kB != kplus1B && kB != twoB && kplus1B != twoB
      invariant Leads(E, A, B.Pair(), 1, B.Pair(), twoB.Pair())
      invariant Leads(E, A, B.Pair(), Multiplier(n, bitindex), kB.Pair(), kplus1B.Pair())
      invariant notStartedYet <==> Prefix(n, bitindex) == 0
    {
      LadderStep(E, A, B.Pair(), Multiplier(n, bitindex), kB.Pair(), kplus1B.Pair());
      bitindex := bitindex - 1;
      var nbit := Bit(n, bitindex);
      ReadBit(n, bitindex);

      var sum := new MontgomeryPoint(DiffAdd(p, kB.Pair(), kplus1B.Pair(), B.Pair()));
      kB.CondSwap(kplus1B, nbit);
      var other := new MontgomeryPoint(DoubleXZ(p, q, kB.Pair()));
      kB := other;
      kplus1B := sum;
      kB.CondSwap(kplus1B, nbit);

      kB.CondOverwrite(B, notStartedYet);
      kplus1B.CondOverwrite(twoB, notStartedYet);
      notStartedYet := notStartedYet && !nbit;
    }
    AllBitsRead(n);
    LeadsResult(E, A, B.Pair(), n, kB.Pair(), kplus1B.Pair());
    r := kB;
  }
}
