/**
 Weierstrass points as the program holds them, mutable and updated in place, and
 the ladder multiplication on them: for which n and which base point it returns
 the multiple, when it fails its assertion, and what it returns otherwise.
 */
module WeierstrassLadder {
  import opened PrimeField
  import opened Weierstrass
  import opened JacobianFormulas
  import opened JacobianGroup
  import opened JacobianInfinity
  import opened LadderBits

  class WeierstrassPoint {
    var X: nat
    var Y: nat
    var Z: nat

    constructor (P: Jacobian)
      requires P.X >= 0 && P.Y >= 0 && P.Z >= 0
      ensures Triple() == P
    {
      X, Y, Z := P.X, P.Y, P.Z;
    }

    function Triple(): Jacobian
      reads this
    {
      Jacobian(X, Y, Z)
    }

    /** ecc_weierstrass_cond_overwrite */
    method CondOverwrite(src: WeierstrassPoint, overwrite: bool)
      modifies this
      ensures Triple() == old(if overwrite then src.Triple() else Triple())
    {
      X := if overwrite then src.X else X;
      Y := if overwrite then src.Y else Y;
      Z := if overwrite then src.Z else Z;
    }

    /** ecc_weierstrass_cond_swap */
    method CondSwap(Q: WeierstrassPoint, swap: bool)
      requires Q != this
      modifies this, Q
      ensures Triple() == old(if swap then Q.Triple() else Triple())
      ensures Q.Triple() == old(if swap then Triple() else Q.Triple())
    {
      if swap {
        X, Q.X := Q.X, X;
        Y, Q.Y := Q.Y, Y;
        Z, Q.Z := Q.Z, Z;
      }
    }

    /** ecc_weierstrass_normalise: the same point with Z one, so that X and Y are
        the affine coordinates. */
    method Normalise(p: OddPrime)
      requires Canonical(p, Triple()) && Z != 0
      modifies this
      ensures Canonical(p, Triple()) && Z == 1
      ensures Value(p, Triple()) == old(Value(p, Triple())) == Affine(X, Y)
    {
      var zinv := Inv(p, Z);
      var zinv2 := Mul(p, zinv, zinv);
      var zinv3 := Mul(p, zinv2, zinv);
      NormalisedQuotients(p, X, Y, Z);
      X := Mul(p, X, zinv2);
      Y := Mul(p, Y, zinv3);
      Z := 1;
      UnitValue(p, X, Y);
    }
  }

  lemma NormalisedQuotients(p: OddPrime, X: nat, Y: nat, Z: nat)
    requires Canonical(p, Jacobian(X, Y, Z)) && Z != 0
    ensures var i := Inv(p, Z);
            Value(p, Jacobian(X, Y, Z)) == Affine(Mul(p, X, Mul(p, i, i)), Mul(p, Y, Mul(p, Mul(p, i, i), i)))
  {
    hide Red, Mul, Div, Inv;
    var i, z2 := Inv(p, Z), Mul(p, Z, Z);
    var i2 := Mul(p, i, i);
    PowersNonzero(p, Z);
    InverseProduct(p, Z, i, Z, i);
    InverseProduct(p, z2, i2, Z, i);
    ByInverse(p, X, z2, i2);
    ByInverse(p, Y, Mul(p, z2, Z), Mul(p, i2, i));
  }

  lemma InverseProduct(p: OddPrime, x: nat, i: nat, y: nat, j: nat)
    requires Mul(p, x, i) == 1 && Mul(p, y, j) == 1 && IsResidue(p, x) && IsResidue(p, y)
    ensures Mul(p, Mul(p, x, y), Mul(p, i, j)) == 1
  {
    hide *;
    MulAssoc(p, Mul(p, x, y), i, j);
    MulComm(p, x, y);
    MulAssoc(p, y, x, i);
    MulOne(p, y);
  }

  /** Dividing is multiplying by any inverse. */
  lemma ByInverse(p: OddPrime, n: nat, d: nat, i: nat)
    requires IsResidue(p, n) && IsResidue(p, d) && d != 0 && Mul(p, d, i) == 1
    ensures Div(p, n, d) == Mul(p, n, i)
  {
    hide Mul, Div;
    MulAssoc(p, n, i, d);
    MulComm(p, i, d);
    MulOne(p, n);
  }

  lemma UnitValue(p: OddPrime, X: nat, Y: nat)
    requires IsResidue(p, X) && IsResidue(p, Y)
    ensures Canonical(p, Jacobian(X, Y, 1)) && Value(p, Jacobian(X, Y, 1)) == Affine(X, Y)
  {
    hide Mul, Div;
    MulOne(p, 1);
    MulOne(p, X);
    MulOne(p, Y);
  }

  // ----- the ladder

  /** The n-fold sum of B. */
  function Times(E: Curve, n: nat, B: Point): (A: Point)
    requires InField(E, B)
    ensures InField(E, A)
  {
    if n == 0 then Infinity else Plus(E, Times(E, n - 1, B), B)
  }

  /** The part of the group law (section 2.2.1 of SEC 1) that is assumed of the
      curve; the rest is proved. */
  ghost predicate Associative(E: Curve) {
    forall A, B, C {:trigger Plus(E, Plus(E, A, B), C)} {:trigger Plus(E, A, Plus(E, B, C))} :: OnCurve(E, A) && OnCurve(E, B) && OnCurve(E, C) ==>
      Plus(E, Plus(E, A, B), C) == Plus(E, A, Plus(E, B, C))
  }

  lemma {:induction false} TimesOnCurve(E: Curve, n: nat, B: Point)
    requires Valid(E) && OnCurve(E, B)
    ensures OnCurve(E, Times(E, n, B))
  {
    hide Plus, Red, Residual;
    if n > 0 {
      TimesOnCurve(E, n - 1, B);
      PlusOnCurve(E, Times(E, n - 1, B), B);
    }
  }

  lemma {:induction false} TimesAdd(E: Curve, i: nat, j: nat, B: Point)
    requires Valid(E) && OnCurve(E, B) && Associative(E)
    ensures Plus(E, Times(E, i, B), Times(E, j, B)) == Times(E, i + j, B)
  {
    hide Plus, Red, Residual;
    TimesOnCurve(E, i, B);
    if j == 0 {
      PlusInfinity(E, Times(E, i, B));
    } else {
      TimesAdd(E, i, j - 1, B);
      TimesOnCurve(E, j - 1, B);
    }
  }

  /** With the bits from b upwards read, the pair of multiples has equal
      y-coordinates, which ecc_weierstrass_add refuses. */
  predicate Refused(E: Curve, B: Point, n: nat, b: nat)
    requires InField(E, B)
  {
    var P, Q := Times(E, Multiplier(n, b), B), Times(E, Multiplier(n, b) + 1, B);
    P.Affine? && Q.Affine? && P.y == Q.y
  }

  /** On finite points the assertion refuses exactly equal y-coordinates. */
  lemma AddableValue(p: OddPrime, P: Jacobian, Q: Jacobian)
    requires Canonical(p, P) && Canonical(p, Q) && P.Z != 0 && Q.Z != 0
    ensures Addable(p, P, Q) <==> Value(p, P).y != Value(p, Q).y
  {
    hide Red, Value, Prologue, ScaledChord, RedChord;
    var A, B := Value(p, P), Value(p, Q);
    PrologueValue(p, P, Q);
    SlopeNumerator(p, A.x, A.y, B.x, B.y, P.Z * Q.Z);
  }

  lemma SlopeNumerator(p: OddPrime, x1: nat, y1: nat, x2: nat, y2: nat, D: int)
    requires IsResidue(p, y1) && IsResidue(p, y2) && Red(p, D) != 0
    ensures RedChord(p, ScaledChord(x1, y1, x2, y2, D)).ln == 0 <==> y1 == y2
  {
    hide Red;
    ZeroProduct(p, y2 - y1, D * D * D);
    ZeroProduct(p, D * D, D);
    ZeroProduct(p, D, D);
    CongSub(p, y2, y1);
    Reduced(p, y1);
    Reduced(p, y2);
  }

  /** The pair of triples stands for kB and (k+1)B. */
  ghost predicate Pair(E: Curve, B: Point, k: nat, P: Jacobian, Q: Jacobian)
    requires InField(E, B)
  {
    && Canonical(E.p, P) && Canonical(E.p, Q)
    && Value(E.p, P) == Times(E, k, B) && Value(E.p, Q) == Times(E, k + 1, B)
  }

  predicate BothFinite(E: Curve, B: Point, k: nat)
    requires InField(E, B)
  {
    Times(E, k, B) != Infinity && Times(E, k + 1, B) != Infinity
  }

  /** One addition and one doubling take k to 2k or 2k + 1 while both multiples
      are finite.  With one of them at infinity the doublings are still right but
      the sum is at infinity, and (0 : 0 : 0) where that infinity is proper; with
      both there the assertion fails. */
  lemma LadderStep(E: Curve, B: Point, k: nat, P: Jacobian, Q: Jacobian)
    requires Valid(E) && OnCurve(E, B) && Associative(E) && Pair(E, B, k, P, Q)
    ensures Value(E.p, DoublePoint(E.p, E.a, P)) == Times(E, 2 * k, B)
    ensures Value(E.p, DoublePoint(E.p, E.a, Q)) == Times(E, 2 * k + 2, B)
    ensures BothFinite(E, B, k) ==> (Addable(E.p, P, Q) <==> Times(E, k, B).y != Times(E, k + 1, B).y)
    ensures BothFinite(E, B, k) && Addable(E.p, P, Q) ==> Value(E.p, AddPoints(E.p, P, Q)) == Times(E, 2 * k + 1, B)
    ensures !BothFinite(E, B, k) && Addable(E.p, P, Q) ==> Value(E.p, AddPoints(E.p, P, Q)) == Infinity
    ensures Times(E, k, B) == Times(E, k + 1, B) == Infinity ==> !Addable(E.p, P, Q)
    ensures Proper(E.p, P) && Proper(E.p, Q) && (Times(E, k, B) == Infinity) != (Times(E, k + 1, B) == Infinity) ==>
      Addable(E.p, P, Q) && AddPoints(E.p, P, Q) == ZERO
  {
    assert InField(E, B);
    LadderDoubles(E, B, k, P, Q);
    if BothFinite(E, B, k) {
      LadderSum(E, B, k, P, Q);
    } else {
      LadderInfinite(E, B, k, P, Q);
    }
    hide *;
  }

  lemma LadderDoubles(E: Curve, B: Point, k: nat, P: Jacobian, Q: Jacobian)
    requires Valid(E) && OnCurve(E, B) && Associative(E) && Pair(E, B, k, P, Q)
    ensures Value(E.p, DoublePoint(E.p, E.a, P)) == Times(E, 2 * k, B)
    ensures Value(E.p, DoublePoint(E.p, E.a, Q)) == Times(E, 2 * k + 2, B)
  {
    hide Red, Value, Plus, DoublePoint, Times, Valid, OnCurve, Associative;
    DoublePointValue(E, P);
    DoublePointValue(E, Q);
    TimesAdd(E, k, k, B);
    TimesAdd(E, k + 1, k + 1, B);
  }

  lemma LadderSum(E: Curve, B: Point, k: nat, P: Jacobian, Q: Jacobian)
    requires Valid(E) && OnCurve(E, B) && Associative(E) && Pair(E, B, k, P, Q) && BothFinite(E, B, k)
    ensures Addable(E.p, P, Q) <==> Times(E, k, B).y != Times(E, k + 1, B).y
    ensures Addable(E.p, P, Q) ==> Value(E.p, AddPoints(E.p, P, Q)) == Times(E, 2 * k + 1, B)
  {
    hide Red, Value, Plus, Addable, AddPoints, Times, Valid, OnCurve, Associative;
    TimesAdd(E, k, k + 1, B);
    AddableValue(E.p, P, Q);
    if Addable(E.p, P, Q) {
      AddPointsValue(E, P, Q);
    }
  }

  lemma LadderInfinite(E: Curve, B: Point, k: nat, P: Jacobian, Q: Jacobian)
    requires InField(E, B) && Pair(E, B, k, P, Q) && !BothFinite(E, B, k)
    ensures Addable(E.p, P, Q) ==> Value(E.p, AddPoints(E.p, P, Q)) == Infinity
    ensures Times(E, k, B) == Times(E, k + 1, B) == Infinity ==> !Addable(E.p, P, Q)
    ensures Proper(E.p, P) && Proper(E.p, Q) && (Times(E, k, B) == Infinity) != (Times(E, k + 1, B) == Infinity) ==>
      Addable(E.p, P, Q) && AddPoints(E.p, P, Q) == ZERO
  {
    hide Red, Value, Plus, Addable, AddPoints, Times, Proper;
    if P.Z == 0 && Q.Z == 0 {
      NotBothInfinite(E.p, P, Q);
    } else if Proper(E.p, P) && Proper(E.p, Q) {
      if P.Z == 0 {
        AddToInfinity(E.p, P, Q);
      } else {
        AddToInfinity(E.p, Q, P);
      }
    }
    if Addable(E.p, P, Q) {
      AddPointsInfinite(E.p, P, Q);
    }
  }

  lemma LadderStart(E: Curve, B: Jacobian)
    requires Valid(E) && Canonical(E.p, B)
    ensures Pair(E, Value(E.p, B), 1, B, DoublePoint(E.p, E.a, B))
  {
    hide Red, Value, Plus, DoublePoint;
    DoublePointValue(E, B);
    PlusInfinity(E, Value(E.p, B));
    assert Times(E, 1, Value(E.p, B)) == Plus(E, Times(E, 0, Value(E.p, B)), Value(E.p, B));
  }

  // ----- what the loop computes

  datatype Outcome = Aborted | Running(P: Jacobian, Q: Jacobian)

  /** What a turn of the loop makes of the two points when the bit read is set or
      not. */
  function Turn(E: Curve, P: Jacobian, Q: Jacobian, bit: bool): (r: (Jacobian, Jacobian))
    requires Addable(E.p, P, Q)
    ensures Canonical(E.p, r.0) && Canonical(E.p, r.1)
  {
    hide *;
    if bit then (AddPoints(E.p, P, Q), DoublePoint(E.p, E.a, Q))
    else (DoublePoint(E.p, E.a, P), AddPoints(E.p, P, Q))
  }

  /** The two points k_B and kplus1_B once the bits from b upwards are read;
      Aborted stands for the failed assertion. */
  function Ladder(E: Curve, B: Jacobian, n: nat, b: nat, maxBits: nat): (r: Outcome)
    requires Canonical(E.p, B) && b <= maxBits
    ensures r.Running? ==> Canonical(E.p, r.P) && Canonical(E.p, r.Q)
    decreases maxBits - b
  {
    var twoB := DoublePoint(E.p, E.a, B);
    if b == maxBits then Running(B, twoB)
    else
      match Ladder(E, B, n, b + 1, maxBits)
      case Aborted => Aborted
      case Running(P, Q) =>
        if !Addable(E.p, P, Q) then Aborted
        else if Prefix(n, b + 1) == 0 then Running(B, twoB)
        else
          var (R, S) := Turn(E, P, Q, Bit(n, b));
          Running(R, S)
  }

  /** No pair that the bits from b upwards go through has a member at infinity. */
  predicate PairsFinite(E: Curve, B: Point, n: nat, b: nat, maxBits: nat)
    requires InField(E, B)
  {
    forall c :: b < c <= maxBits ==> BothFinite(E, B, Multiplier(n, c))
  }

  predicate RefusedAbove(E: Curve, B: Point, n: nat, b: nat, maxBits: nat)
    requires InField(E, B)
  {
    exists c :: b < c <= maxBits && Refused(E, B, n, c)
  }

  lemma RefusedMore(E: Curve, B: Point, n: nat, b: nat, maxBits: nat)
    requires InField(E, B) && b < maxBits
    ensures RefusedAbove(E, B, n, b, maxBits) <==> RefusedAbove(E, B, n, b + 1, maxBits) || Refused(E, B, n, b + 1)
  {
    hide Refused;
  }

  /** The loop keeps the pair (kB, (k+1)B) with k the bits read, and fails exactly
      at a pair with equal y-coordinates. */
  lemma {:induction false} LadderPairs(E: Curve, B: Jacobian, n: nat, b: nat, maxBits: nat)
    requires Valid(E) && Associative(E) && Canonical(E.p, B) && OnCurve(E, Value(E.p, B))
    requires b <= maxBits && n < Pow2(maxBits) && PairsFinite(E, Value(E.p, B), n, b, maxBits)
    ensures Ladder(E, B, n, b, maxBits) == Aborted <==> RefusedAbove(E, Value(E.p, B), n, b, maxBits)
    ensures var r := Ladder(E, B, n, b, maxBits);
      r.Running? ==> Pair(E, Value(E.p, B), Multiplier(n, b), r.P, r.Q)
    decreases maxBits - b
  {
    hide Red, Value, Addable, AddPoints, DoublePoint, Valid, Times, Prefix, Bit, Multiplier, Pow2, Associative, OnCurve;
    var A := Value(E.p, B);
    LadderStart(E, B);
    if b == maxBits {
      NothingRead(n, maxBits);
    } else {
      LadderPairs(E, B, n, b + 1, maxBits);
      assert BothFinite(E, A, Multiplier(n, b + 1));
      ReadBit(n, b);
      RefusedMore(E, A, n, b, maxBits);
      var r := Ladder(E, B, n, b + 1, maxBits);
      if r.Running? {
        LadderStep(E, A, Multiplier(n, b + 1), r.P, r.Q);
      }
    }
  }

  /** The multiple that is wanted: nB, and B for n = 0. */
  function Wanted(E: Curve, B: Point, n: nat): (A: Point)
    requires InField(E, B)
    ensures InField(E, A)
  {
    Times(E, if n == 0 then 1 else n, B)
  }

  /** The point is on a curve with a group law, and no pair is at infinity. */
  ghost predicate LadderIsRight(E: Curve, B: Jacobian, n: nat, maxBits: nat)
    requires Canonical(E.p, B)
  {
    && Valid(E) && Associative(E) && OnCurve(E, Value(E.p, B))
    && PairsFinite(E, Value(E.p, B), n, 0, maxBits)
  }

  /** ecc_weierstrass_multiply is right: when none of the pairs it goes through
      has a member at infinity it returns nB, and B for n = 0, whatever the number
      of leading zero bits; it stops on a failed assertion exactly when the two
      multiples of some pair share their y-coordinate. */
  lemma LadderValue(E: Curve, B: Jacobian, n: nat, maxBits: nat)
    requires Canonical(E.p, B) && n < Pow2(maxBits) && LadderIsRight(E, B, n, maxBits)
    ensures var r := Ladder(E, B, n, 0, maxBits);
      && (r == Aborted <==> RefusedAbove(E, Value(E.p, B), n, 0, maxBits))
      && (r.Running? ==> Value(E.p, r.P) == Wanted(E, Value(E.p, B), n))
  {
    hide Value, Times, Prefix, Bit, Multiplier, Pow2, Associative, OnCurve, Ladder, PairsFinite, RefusedAbove;
    LadderPairs(E, B, n, 0, maxBits);
    AllBitsRead(n);
  }

  // ----- the result for any n

  /** A finite point of a nonsingular curve with a group law, as
      ecc_weierstrass_point_valid tests it. */
  ghost predicate OnGroup(E: Curve, B: Jacobian) {
    && Valid(E) && Nonsingular(E) && Associative(E)
    && Canonical(E.p, B) && B.Z != 0 && PointValid(E, B)
  }

  lemma OnGroupMeans(E: Curve, B: Jacobian)
    requires OnGroup(E, B)
    ensures Valid(E) && Nonsingular(E) && Associative(E) && Canonical(E.p, B)
    ensures OnCurve(E, Value(E.p, B)) && InField(E, Value(E.p, B)) && Value(E.p, B).Affine?
  {
    hide Associative, Nonsingular, PointValid, Value;
    PointValidFinite(E, B);
  }

  /** After the first set bit, with the bits from c upwards read, a multiple of the
      pair is at infinity. */
  predicate Gone(E: Curve, B: Point, n: nat, c: nat)
    requires InField(E, B)
  {
    Prefix(n, c) != 0 && !BothFinite(E, B, Multiplier(n, c))
  }

  /** The pair at c makes the assertion fail before the bit below b is read: at
      once, or one turn later if a member is at infinity. */
  predicate StopsAt(E: Curve, B: Point, n: nat, b: nat, c: nat)
    requires InField(E, B)
  {
    Refused(E, B, n, c) || (c >= b + 2 && Gone(E, B, n, c))
  }

  predicate Stops(E: Curve, B: Point, n: nat, b: nat, maxBits: nat)
    requires InField(E, B)
  {
    exists c :: b < c <= maxBits && StopsAt(E, B, n, b, c)
  }

  lemma StopsMore(E: Curve, B: Point, n: nat, b: nat, maxBits: nat)
    requires InField(E, B) && b < maxBits
    ensures Stops(E, B, n, b, maxBits) <==>
      Stops(E, B, n, b + 1, maxBits) || Refused(E, B, n, b + 1) || (b + 2 <= maxBits && Gone(E, B, n, b + 2))
  {
    hide Refused, Gone;
    if Stops(E, B, n, b, maxBits) {
      var c :| b < c <= maxBits && StopsAt(E, B, n, b, c);
      assert c > b + 1 && (c > b + 2 || !Gone(E, B, n, c)) ==> StopsAt(E, B, n, b + 1, c);
    }
    if Stops(E, B, n, b + 1, maxBits) {
      var c :| b + 1 < c <= maxBits && StopsAt(E, B, n, b + 1, c);
      assert StopsAt(E, B, n, b, c);
    }
    assert Refused(E, B, n, b + 1) ==> StopsAt(E, B, n, b, b + 1);
    assert Gone(E, B, n, b + 2) ==> StopsAt(E, B, n, b, b + 2);
  }

  /** The pair (kB, (k+1)B) in triples that the formulas can go on with. */
  ghost predicate Sound(E: Curve, B: Point, k: nat, P: Jacobian, Q: Jacobian)
    requires InField(E, B)
  {
    Pair(E, B, k, P, Q) && Proper(E.p, P) && Proper(E.p, Q)
  }

  lemma SoundStart(E: Curve, B: Jacobian)
    requires OnGroup(E, B)
    ensures InField(E, Value(E.p, B)) && Sound(E, Value(E.p, B), 1, B, DoublePoint(E.p, E.a, B))
  {
    OnGroupMeans(E, B);
    hide OnGroup, Value, DoublePoint, Pair, Nonsingular, Associative, Valid, OnCurve;
    LadderStart(E, B);
    DoubleProper(E, B);
  }

  /** A turn on two finite multiples. */
  lemma FiniteTurn(E: Curve, B: Point, k: nat, P: Jacobian, Q: Jacobian, bit: bool)
    requires Valid(E) && Nonsingular(E) && Associative(E) && OnCurve(E, B) && InField(E, B)
    requires Sound(E, B, k, P, Q) && BothFinite(E, B, k)
    ensures Addable(E.p, P, Q) <==> Times(E, k, B).y != Times(E, k + 1, B).y
    ensures Addable(E.p, P, Q) ==>
      var (R, S) := Turn(E, P, Q, bit);
      Sound(E, B, 2 * k + (if bit then 1 else 0), R, S)
  {
    hide Red, Value, Plus, Addable, AddPoints, DoublePoint, Times, Valid, OnCurve, Associative, Nonsingular, Proper;
    TimesOnCurve(E, k, B);
    TimesOnCurve(E, k + 1, B);
    LadderDoubles(E, B, k, P, Q);
    LadderSum(E, B, k, P, Q);
    DoubleProper(E, P);
    DoubleProper(E, Q);
    if Addable(E.p, P, Q) {
      AddProper(E.p, P, Q);
    }
  }

  /** Two multiples in a row are not both at infinity. */
  lemma NotBothGone(E: Curve, B: Point, k: nat)
    requires InField(E, B) && B.Affine?
    ensures Times(E, k, B) != Infinity || Times(E, k + 1, B) != Infinity
  {
  }

  /** A turn with one multiple at infinity: the sum becomes (0 : 0 : 0). */
  lemma BrokenTurn(E: Curve, B: Point, k: nat, P: Jacobian, Q: Jacobian)
    requires InField(E, B) && B.Affine? && Sound(E, B, k, P, Q) && !BothFinite(E, B, k)
    ensures Addable(E.p, P, Q) && AddPoints(E.p, P, Q) == ZERO
  {
    hide Red, Value, Times, Addable, AddPoints, Proper;
    NotBothGone(E, B, k);
    LadderInfinite(E, B, k, P, Q);
  }

  /** What the loop holds with the bits from b upwards read: the pair, unless the
      turn before met infinity. */
  ghost predicate Held(E: Curve, B: Point, n: nat, b: nat, maxBits: nat, P: Jacobian, Q: Jacobian)
    requires InField(E, B)
  {
    if b < maxBits && Gone(E, B, n, b + 1) then Broken(E, B, Multiplier(n, b), Bit(n, b), P, Q)
    else Sound(E, B, Multiplier(n, b), P, Q)
  }

  ghost predicate Broken(E: Curve, B: Point, k: nat, bit: bool, P: Jacobian, Q: Jacobian)
    requires InField(E, B)
  {
    if bit then P == ZERO else Q == ZERO && Canonical(E.p, P) && Value(E.p, P) == Times(E, k, B)
  }

  lemma BrokenNext(E: Curve, B: Point, k: nat, P: Jacobian, Q: Jacobian, bit: bool)
    requires Valid(E) && Associative(E) && OnCurve(E, B) && InField(E, B) && B.Affine?
    requires Sound(E, B, k, P, Q) && !BothFinite(E, B, k)
    ensures Addable(E.p, P, Q)
    ensures var (R, S) := Turn(E, P, Q, bit);
      Broken(E, B, 2 * k + (if bit then 1 else 0), bit, R, S)
  {
    hide Red, Value, Plus, Addable, AddPoints, DoublePoint, Times, Valid, OnCurve, Associative, Proper;
    BrokenTurn(E, B, k, P, Q);
    LadderDoubles(E, B, k, P, Q);
  }

  lemma RefusedMeans(E: Curve, B: Point, n: nat, c: nat)
    requires InField(E, B)
    ensures var k := Multiplier(n, c);
      Refused(E, B, n, c) <==> BothFinite(E, B, k) && Times(E, k, B).y == Times(E, k + 1, B).y
    ensures Gone(E, B, n, c) <==> Prefix(n, c) != 0 && !BothFinite(E, B, Multiplier(n, c))
  {
  }

  /** One turn, from the bits above b to those from b on. */
  lemma HeldTurn(E: Curve, B: Point, n: nat, b: nat, maxBits: nat, P: Jacobian, Q: Jacobian)
    requires Valid(E) && Nonsingular(E) && Associative(E) && OnCurve(E, B) && InField(E, B) && B.Affine?
    requires b < maxBits && !(b + 2 <= maxBits && Gone(E, B, n, b + 2)) && Held(E, B, n, b + 1, maxBits, P, Q)
    ensures Addable(E.p, P, Q) <==> !Refused(E, B, n, b + 1)
    ensures Addable(E.p, P, Q) && Prefix(n, b + 1) != 0 ==>
      var (R, S) := Turn(E, P, Q, Bit(n, b));
      Held(E, B, n, b, maxBits, R, S)
  {
    hide *;
    var k, bit := Multiplier(n, b + 1), Bit(n, b);
    HeldMeans(E, B, n, b + 1, maxBits, P, Q);
    RefusedMeans(E, B, n, b + 1);
    ReadBit(n, b);
    if BothFinite(E, B, k) {
      FiniteTurn(E, B, k, P, Q, bit);
    } else {
      BrokenNext(E, B, k, P, Q, bit);
    }
    if Addable(E.p, P, Q) && Prefix(n, b + 1) != 0 {
      var (R, S) := Turn(E, P, Q, bit);
      HeldMeans(E, B, n, b, maxBits, R, S);
    }
  }

  lemma HeldMeans(E: Curve, B: Point, n: nat, b: nat, maxBits: nat, P: Jacobian, Q: Jacobian)
    requires InField(E, B)
    ensures !(b < maxBits && Gone(E, B, n, b + 1)) ==>
      (Held(E, B, n, b, maxBits, P, Q) <==> Sound(E, B, Multiplier(n, b), P, Q))
    ensures b < maxBits && Gone(E, B, n, b + 1) ==>
      (Held(E, B, n, b, maxBits, P, Q) <==> Broken(E, B, Multiplier(n, b), Bit(n, b), P, Q))
  {
    hide Gone, Sound, Broken;
  }

  /** Before the first set bit the pair is the one the loop starts from. */
  lemma HeldStart(E: Curve, B: Jacobian, n: nat, b: nat, maxBits: nat)
    requires OnGroup(E, B) && InField(E, Value(E.p, B)) && b <= maxBits
    requires if b == maxBits then Prefix(n, b) == 0 else Prefix(n, b + 1) == 0
    ensures Held(E, Value(E.p, B), n, b, maxBits, B, DoublePoint(E.p, E.a, B))
  {
    hide OnGroup, Value, DoublePoint, Sound, Times, Prefix;
    SoundStart(E, B);
    ReadBit(n, b);
  }

  /** With (0 : 0 : 0) in the pair the assertion fails. */
  lemma BrokenStops(E: Curve, B: Point, n: nat, b: nat, maxBits: nat, P: Jacobian, Q: Jacobian)
    requires InField(E, B) && b < maxBits && Gone(E, B, n, b + 1) && Held(E, B, n, b, maxBits, P, Q)
    ensures !Addable(E.p, P, Q)
  {
    hide Gone, Times, Value, Addable, Bit, Multiplier;
    ZeroRefused(E.p, P);
    ZeroRefused(E.p, Q);
  }

  lemma {:induction false} LadderHolds(E: Curve, B: Jacobian, n: nat, b: nat, maxBits: nat)
    requires OnGroup(E, B) && Canonical(E.p, B) && InField(E, Value(E.p, B)) && b <= maxBits && n < Pow2(maxBits)
    ensures var A, r := Value(E.p, B), Ladder(E, B, n, b, maxBits);
      && (r == Aborted <==> Stops(E, A, n, b, maxBits))
      && (r.Running? ==> Held(E, A, n, b, maxBits, r.P, r.Q))
    decreases maxBits - b
  {
    hide OnGroup, Canonical, Value, Addable, Turn, DoublePoint, Bit, Pow2, OnCurve, Held, Prefix, Gone, Refused, Nonsingular,
      Associative, Valid, StopsAt;
    OnGroupMeans(E, B);
    var A := Value(E.p, B);
    if b == maxBits {
      NothingRead(n, maxBits);
      HeldStart(E, B, n, b, maxBits);
    } else {
      LadderHolds(E, B, n, b + 1, maxBits);
      StopsMore(E, A, n, b, maxBits);
      var r := Ladder(E, B, n, b + 1, maxBits);
      if r.Running? {
        if b + 2 <= maxBits && Gone(E, A, n, b + 2) {
          BrokenStops(E, A, n, b + 1, maxBits, r.P, r.Q);
        } else {
          HeldTurn(E, A, n, b, maxBits, r.P, r.Q);
          if Prefix(n, b + 1) == 0 {
            HeldStart(E, B, n, b, maxBits);
          }
        }
      }
    }
  }

  /** n is odd, above one, and the pair at its last bit has a member at infinity. */
  predicate LastLost(E: Curve, B: Point, n: nat)
    requires InField(E, B)
  {
    n % 2 == 1 && n / 2 != 0 && !BothFinite(E, B, n / 2)
  }

  lemma LastTurn(E: Curve, B: Point, n: nat, maxBits: nat)
    requires InField(E, B) && n < Pow2(maxBits)
    ensures LastLost(E, B, n) <==> maxBits > 0 && Gone(E, B, n, 1) && Bit(n, 0)
  {
    hide Times;
    assert Prefix(n, 1) == Prefix(n, 0) / 2 == n / 2;
  }

  /** What is lost then is never infinity. */
  lemma {:induction false} LostIsFinite(E: Curve, B: Point, n: nat)
    requires Valid(E) && Associative(E) && OnCurve(E, B) && InField(E, B) && B.Affine? && LastLost(E, B, n)
    ensures Wanted(E, B, n) != Infinity
  {
    hide Times, Plus, Associative, OnCurve, Valid;
    var k := n / 2;
    TimesAdd(E, k, k + 1, B);
    NotBothGone(E, B, k);
    PlusInfinity(E, Times(E, k, B));
    PlusInfinity(E, Times(E, k + 1, B));
  }

  /** The loop runs to its end and returns the multiple that is wanted. */
  predicate Returns(E: Curve, B: Jacobian, n: nat, maxBits: nat)
    requires Canonical(E.p, B)
  {
    var r := Ladder(E, B, n, 0, maxBits);
    r.Running? && Value(E.p, r.P) == Wanted(E, Value(E.p, B), n)
  }

  /** For every n and every finite base point that ecc_weierstrass_point_valid
      accepts: the assertion stops the loop exactly when two multiples on the way
      share their y-coordinate, or one after the first set bit is at infinity and
      two turns are still to come.  Otherwise the result is infinity if the last
      turn adds to infinity, and the multiple wanted if not.  So the loop is right
      if and only if neither happens. */
  lemma LadderExactly(E: Curve, B: Jacobian, n: nat, maxBits: nat)
    requires OnGroup(E, B) && n < Pow2(maxBits)
    ensures var A, r := Value(E.p, B), Ladder(E, B, n, 0, maxBits);
      && (r == Aborted <==> Stops(E, A, n, 0, maxBits))
      && (r.Running? ==> Value(E.p, r.P) == if LastLost(E, A, n) then Infinity else Wanted(E, A, n))
      && (Returns(E, B, n, maxBits) <==> !Stops(E, A, n, 0, maxBits) && !LastLost(E, A, n))
  {
    hide OnGroup, Value, DoublePoint, Bit, Pow2, OnCurve, Gone, Nonsingular, Associative, Valid, Times, Ladder, Stops,
      LastLost, Multiplier, Wanted;
    OnGroupMeans(E, B);
    var A, r := Value(E.p, B), Ladder(E, B, n, 0, maxBits);
    LadderHolds(E, B, n, 0, maxBits);
    LastTurn(E, A, n, maxBits);
    WantedIs(E, A, n);
    if LastLost(E, A, n) {
      LostIsFinite(E, A, n);
    }
  }

  lemma WantedIs(E: Curve, B: Point, n: nat)
    requires InField(E, B)
    ensures Wanted(E, B, n) == Times(E, Multiplier(n, 0), B)
  {
    AllBitsRead(n);
  }

  /** From a point at infinity the first turn already fails. */
  lemma {:induction false} LadderFromInfinity(E: Curve, B: Jacobian, n: nat, b: nat, maxBits: nat)
    requires Canonical(E.p, B) && B.Z == 0 && b <= maxBits
    ensures Ladder(E, B, n, b, maxBits) == Aborted <==> b < maxBits
    decreases maxBits - b
  {
    hide Addable, Turn, Bit, Prefix;
    if b < maxBits {
      LadderFromInfinity(E, B, n, b + 1, maxBits);
      var D := DoublePoint(E.p, E.a, B);
      DoubledInfinity(E, B);
      NotBothInfinite(E.p, B, D);
    }
  }

  lemma DoubledInfinity(E: Curve, B: Jacobian)
    requires B.Z == 0
    ensures DoublePoint(E.p, E.a, B).Z == 0
  {
    MulZero(E.p, TangentDenominator(E.p, B));
    hide Red, Mul;
  }

  // ----- the result by the order of the point

  predicate HasOrder(E: Curve, B: Point, m: nat)
    requires InField(E, B)
  {
    m >= 2 && Times(E, m, B) == Infinity && forall i :: 1 <= i < m ==> Times(E, i, B) != Infinity
  }

  predicate Vanishes(E: Curve, B: Point, k: nat)
    requires InField(E, B)
  {
    Times(E, k, B) == Infinity
  }

  lemma {:induction false} VanishesByOrder(E: Curve, B: Point, m: nat, k: nat)
    requires Valid(E) && Associative(E) && OnCurve(E, B) && InField(E, B) && HasOrder(E, B, m)
    ensures m > 0 && (Vanishes(E, B, k) <==> k % m == 0)
    decreases k
  {
    hide *;
    OrderMeans(E, B, m);
    if k >= m {
      VanishesByOrder(E, B, m, k - m);
      VanishesLess(E, B, m, k - m);
      ModuloLess(k, m);
    } else {
      BelowOrder(E, B, m, k);
    }
  }

  lemma BelowOrder(E: Curve, B: Point, m: nat, k: nat)
    requires InField(E, B) && HasOrder(E, B, m) && k < m
    ensures Vanishes(E, B, k) <==> k % m == 0
  {
    hide Plus;
    assert k % m == k;
  }

  lemma OrderMeans(E: Curve, B: Point, m: nat)
    requires InField(E, B) && HasOrder(E, B, m)
    ensures m >= 2 && Vanishes(E, B, m)
  {
  }

  lemma VanishesLess(E: Curve, B: Point, m: nat, k: nat)
    requires Valid(E) && Associative(E) && OnCurve(E, B) && InField(E, B) && HasOrder(E, B, m)
    ensures Vanishes(E, B, k + m) <==> Vanishes(E, B, k)
  {
    hide Times, Plus, Associative, OnCurve, Valid;
    TimesAdd(E, k, m, B);
    PlusInfinity(E, Times(E, k, B));
  }

  lemma Modulo(x: nat, m: nat, q: nat, r: nat)
    requires r < m && x == q * m + r
    ensures x % m == r
  {
    var u := x / m;
    assert x == u * m + x % m;
    if q > u {
      MoreTimes(u, q, m);
    } else if q < u {
      MoreTimes(q, u, m);
    }
  }

  lemma MoreTimes(u: nat, q: nat, m: nat)
    requires u < q
    ensures q * m >= u * m + m
  {
    assert q * m == u * m + (q - u) * m;
    assert (q - u) * m == m + (q - u - 1) * m;
  }

  lemma ModuloLess(x: nat, m: nat)
    requires 0 < m <= x
    ensures x % m == (x - m) % m
  {
    var q, r := (x - m) / m, (x - m) % m;
    assert (q + 1) * m == q * m + m;
    Modulo(x, m, q + 1, r);
  }

  /** k or k + 1 is a multiple of m. */
  predicate Near(k: nat, m: nat)
    requires m > 0
  {
    k % m == 0 || k % m == m - 1
  }

  lemma NearMeans(k: nat, m: nat)
    requires m >= 2
    ensures Near(k, m) <==> k % m == 0 || (k + 1) % m == 0
  {
    var q, r := k / m, k % m;
    assert k == q * m + r && (q + 1) * m == q * m + m;
    if r == m - 1 {
      Modulo(k + 1, m, q + 1, 0);
    } else {
      Modulo(k + 1, m, q, r + 1);
    }
  }

  lemma FiniteByOrder(E: Curve, B: Point, m: nat, k: nat)
    requires Valid(E) && Associative(E) && OnCurve(E, B) && InField(E, B) && HasOrder(E, B, m)
    ensures BothFinite(E, B, k) <==> !Near(k, m)
  {
    hide Times, Associative, OnCurve, Valid;
    VanishesByOrder(E, B, m, k);
    VanishesByOrder(E, B, m, k + 1);
    NearMeans(k, m);
  }

  predicate NearAbove(n: nat, m: nat, maxBits: nat)
    requires m > 0
  {
    exists c :: 2 <= c <= maxBits && Prefix(n, c) != 0 && Near(Prefix(n, c), m)
  }

  /** n is odd, above one, and without its lowest bit 0 or -1 modulo m. */
  predicate NearLast(n: nat, m: nat)
    requires m > 0
  {
    n % 2 == 1 && n / 2 != 0 && Near(n / 2, m)
  }

  /** With m the order of the base point: the assertion stops the loop exactly when
      a pair on the way shares its y-coordinate, or a leading part of n without at
      least its two lowest bits is 0 or -1 modulo m; otherwise an odd n whose part
      without the lowest is so gives infinity, and every other n is right. */
  lemma LadderByOrder(E: Curve, B: Jacobian, n: nat, m: nat, maxBits: nat)
    requires OnGroup(E, B) && n < Pow2(maxBits) && InField(E, Value(E.p, B)) && HasOrder(E, Value(E.p, B), m)
    ensures var A, r := Value(E.p, B), Ladder(E, B, n, 0, maxBits);
      && (r == Aborted <==> RefusedAbove(E, A, n, 0, maxBits) || NearAbove(n, m, maxBits))
      && (r.Running? ==> Value(E.p, r.P) == if NearLast(n, m) then Infinity else Wanted(E, A, n))
      && (Returns(E, B, n, maxBits) <==>
          !RefusedAbove(E, A, n, 0, maxBits) && !NearAbove(n, m, maxBits) && !NearLast(n, m))
  {
    var A := Value(E.p, B);
    OnGroupMeans(E, B);
    LadderExactly(E, B, n, maxBits);
    FiniteByOrder(E, A, m, n / 2);
    forall c ensures Gone(E, A, n, c) <==> Prefix(n, c) != 0 && Near(Prefix(n, c), m) {
      FiniteByOrder(E, A, m, Prefix(n, c));
    }
    StopsParts(E, A, n, maxBits);
    hide OnGroup, Value, Times, Near, Refused, Associative, Nonsingular, Valid, OnCurve, HasOrder, Returns, Ladder, Prefix, Pow2,
      BothFinite, Gone;
  }

  predicate GoneAbove(E: Curve, B: Point, n: nat, maxBits: nat)
    requires InField(E, B)
  {
    exists c :: 2 <= c <= maxBits && Gone(E, B, n, c)
  }

  lemma StopsParts(E: Curve, B: Point, n: nat, maxBits: nat)
    requires InField(E, B)
    ensures Stops(E, B, n, 0, maxBits) <==> RefusedAbove(E, B, n, 0, maxBits) || GoneAbove(E, B, n, maxBits)
  {
    hide Refused, Gone;
    if c :| 0 < c <= maxBits && Refused(E, B, n, c) {
      assert StopsAt(E, B, n, 0, c);
    } else if c :| 2 <= c <= maxBits && Gone(E, B, n, c) {
      assert StopsAt(E, B, n, 0, c);
    }
  }

  lemma NearLow(n: nat, m: nat)
    requires m >= 2 && n < 4 * m - 4
    ensures n / 2 != 0 && Near(n / 2, m) <==> n / 2 == m - 1 || n / 2 == m
  {
    var k := n / 2;
    if k >= m {
      ModuloLess(k, m);
      Modulo(k - m, m, 0, k - m);
    } else {
      Modulo(k, m, 0, k);
    }
  }

  lemma NearHigh(n: nat, m: nat, maxBits: nat)
    requires m >= 2 && n < 4 * m + 4 && n < Pow2(maxBits)
    ensures NearAbove(n, m, maxBits) <==> n >= 4 * m - 4
  {
    LowPrefixes(n);
    var k := n / 4;
    if n >= 4 * m - 4 {
      assert maxBits != 0 && maxBits != 1;
      if k == m {
        Modulo(k, m, 1, 0);
      } else {
        Modulo(k, m, 0, k);
      }
      assert Prefix(n, 2) != 0 && Near(Prefix(n, 2), m);
    } else {
      forall c | 2 <= c <= maxBits && Prefix(n, c) != 0 ensures !Near(Prefix(n, c), m) {
        PrefixShrinks(n, 2, c);
        Modulo(Prefix(n, c), m, 0, Prefix(n, c));
      }
    }
  }

  /** The first n at which the loop can go wrong, for a base point of order m and
      as long as no pair shares its y-coordinate: 2m - 1 and 2m + 1 give infinity,
      and from 4m - 4 on the assertion fails. */
  lemma UpToFourTimesTheOrder(E: Curve, B: Jacobian, n: nat, m: nat, maxBits: nat)
    requires OnGroup(E, B) && n < Pow2(maxBits) && InField(E, Value(E.p, B)) && HasOrder(E, Value(E.p, B), m)
    requires n < 4 * m + 4
    ensures var A, r := Value(E.p, B), Ladder(E, B, n, 0, maxBits);
      && (r == Aborted <==> RefusedAbove(E, A, n, 0, maxBits) || n >= 4 * m - 4)
      && (r.Running? ==>
          Value(E.p, r.P) == if n == 2 * m - 1 || n == 2 * m + 1 then Infinity else Wanted(E, A, n))
      && (Returns(E, B, n, maxBits) <==>
          !RefusedAbove(E, A, n, 0, maxBits) && n < 4 * m - 4 && n != 2 * m - 1 && n != 2 * m + 1)
  {
    OrderMeans(E, Value(E.p, B), m);
    LadderByOrder(E, B, n, m, maxBits);
    hide OnGroup, Value, Returns, Ladder, RefusedAbove, Near, NearAbove, Times, Pow2, Wanted, HasOrder;
    NearHigh(n, m, maxBits);
    if n < 4 * m - 4 {
      NearLow(n, m);
    }
  }

  /** ecc_weierstrass_multiply, for any arguments; null stands for the failed
      assertion. */
  method Multiply(E: Curve, B: WeierstrassPoint, n: nat, maxBits: nat) returns (r: WeierstrassPoint?)
    requires Canonical(E.p, B.Triple()) && n < Pow2(maxBits)
    ensures r == null <==> Ladder(E, B.Triple(), n, 0, maxBits) == Aborted
    ensures r != null ==> fresh(r) && Canonical(E.p, r.Triple()) && r.Triple() == Ladder(E, B.Triple(), n, 0, maxBits).P
    ensures OnGroup(E, B.Triple()) ==>
      var A := Value(E.p, B.Triple());
      && (r == null <==> Stops(E, A, n, 0, maxBits))
      && (r != null ==> Value(E.p, r.Triple()) == if LastLost(E, A, n) then Infinity else Wanted(E, A, n))
  {
    hide Red, Value, Addable, AddPoints, DoublePoint, Valid, Times, Prefix, Bit, Pow2, Associative, OnCurve, Stops, Wanted,
      LastLost, OnGroup;
    if OnGroup(E, B.Triple()) {
      LadderExactly(E, B.Triple(), n, maxBits);
    }
    var p := E.p;
    var twoB := new WeierstrassPoint(DoublePoint(p, E.a, B.Triple()));
    var kB := new WeierstrassPoint(B.Triple());
    var kplus1B := new WeierstrassPoint(twoB.Triple());
    var notStartedYet := true;
    var bitindex: nat := maxBits;
    NothingRead(n, maxBits);
    while bitindex > 0
      invariant bitindex <= maxBits
      invariant fresh(twoB) && fresh(kB) && fresh(kplus1B) && kB != kplus1B && kB != twoB && kplus1B != twoB
      invariant twoB.Triple() == DoublePoint(p, E.a, B.Triple())
      invariant Ladder(E, B.Triple(), n, bitindex, maxBits) == Running(kB.Triple(), kplus1B.Triple())
      invariant notStartedYet <==> Prefix(n, bitindex) == 0
    {
      if !Addable(p, kB.Triple(), kplus1B.Triple()) {
        AbortedStays(E, B.Triple(), n, bitindex - 1, maxBits);
        return null;
      }
      bitindex := bitindex - 1;
      var nbit := Bit(n, bitindex);
      ReadBit(n, bitindex);

      var sum := new WeierstrassPoint(AddPoints(p, kB.Triple(), kplus1B.Triple()));
      kB.CondSwap(kplus1B, nbit);
      var other := new WeierstrassPoint(DoublePoint(p, E.a, kB.Triple()));
      kB := other;
      kplus1B := sum;
      kB.CondSwap(kplus1B, nbit);

      kB.CondOverwrite(B, notStartedYet);
      kplus1B.CondOverwrite(twoB, notStartedYet);
      notStartedYet := notStartedYet && !nbit;
    }
    r := kB;
  }

  lemma {:induction false} AbortedStays(E: Curve, B: Jacobian, n: nat, b: nat, maxBits: nat)
    requires Canonical(E.p, B) && b <= maxBits && Ladder(E, B, n, b, maxBits) == Aborted
    ensures Ladder(E, B, n, 0, maxBits) == Aborted
    decreases b
  {
    hide DoublePoint, AddPoints, Addable, Prefix, Bit;
    if b > 0 {
      AbortedStays(E, B, n, b - 1, maxBits);
    }
  }
}
